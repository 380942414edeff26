/** The spreadsheet import of `POST` in src/app/api/productcategoryapi/route.ts
    (lines 46-72): the rows of the first sheet are grouped into new categories, one
    per distinct category name, each collecting the subcategories of its rows. */
module CategoryImport {
  import opened Common
  import opened Ids
  import opened CategoryModel

  /** One row of the sheet as `sheet_to_json` yields it: the cells under the
      `Category` and `Subcategory` headers, `None` where the cell is empty. */
  datatype Row = Row(category: Option<string>, subcategory: Option<string>)

  /** The state of the import loop: `importedCategories` so far, and the identifier
      counter standing in for `uuidv4()`. */
  datatype Batch = Batch(categories: seq<Category>, next: nat)

  /** `new Category({ id, name, subcategories: [] })`; `excel_file` is left to its default. */
  function NewCategory(id: Id, name: string): Category {
    Category(id, name, None, [])
  }

  /** `category.subcategories.push(s)`. */
  function AppendSubcategory(c: Category, s: Subcategory): Category {
    c.(subcategories := c.subcategories + [s])
  }

  /** Lines 53-61: the category named `name` is created, with the next identifier,
      unless one is already there. */
  function EnsureCategory(b: Batch, name: string): Batch {
    if IndexOfName(b.categories, name).None?
    then Batch(b.categories + [NewCategory(FreshId(b.next), name)], b.next + 1)
    else b
  }

  /** Lines 63-71: a subcategory with the next identifier is appended to the
      category named `name`, if there is one. */
  function AddSubcategoryTo(b: Batch, name: string, subcategoryName: string): Batch {
    match IndexOfName(b.categories, name)
    case None => b
    case Some(k) =>
      var s := Subcategory(FreshId(b.next), subcategoryName);
      Batch(b.categories[k := AppendSubcategory(b.categories[k], s)], b.next + 1)
  }

  /** One pass of the loop body: a row with a truthy category name creates that
      category if no earlier row did, and then, if its subcategory is truthy too,
      appends a new subcategory to the category of that name. */
  function ImportStep(b: Batch, row: Row): Batch {
    if !Truthy(row.category) then b
    else
      var b1 := EnsureCategory(b, row.category.value);
      if !Truthy(row.subcategory) then b1
      else AddSubcategoryTo(b1, row.category.value, row.subcategory.value)
  }

  /** A loop-created category has the drawn identifier, the cell's name, no
      `excel_file` and no subcategories yet. */
  lemma NewCategoryFields(id: Id, name: string)
    ensures var c := NewCategory(id, name);
      c.id == id && c.name == name && c.excelFile.None? && c.subcategories == []
  {
  }

  /** `push` keeps the category's fields and its list, and puts `s` at the end. */
  lemma AppendSubcategoryPushes(c: Category, s: Subcategory)
    ensures var r := AppendSubcategory(c, s);
      && r.id == c.id && r.name == c.name && r.excelFile == c.excelFile
      && |r.subcategories| == |c.subcategories| + 1
      && r.subcategories[..|c.subcategories|] == c.subcategories && r.subcategories[|c.subcategories|] == s
  {
    var r := AppendSubcategory(c, s);
    assert r.subcategories[..|c.subcategories|] == c.subcategories;
  }

  /** The create step leaves the categories collected so far in place; afterwards a
      category has the name; the batch is unchanged when one had it before, and
      otherwise grows by a new category with the next identifier. */
  lemma EnsureCategoryEffect(b: Batch, name: string)
    ensures var r := EnsureCategory(b, name);
      && |b.categories| <= |r.categories| && r.categories[..|b.categories|] == b.categories
      && (exists k :: 0 <= k < |r.categories| && r.categories[k].name == name)
      && ((exists k :: 0 <= k < |b.categories| && b.categories[k].name == name) ==> r == b)
      && ((forall k :: 0 <= k < |b.categories| ==> b.categories[k].name != name) ==>
        r == Batch(b.categories + [NewCategory(FreshId(b.next), name)], b.next + 1))
  {
    var r := EnsureCategory(b, name);
    if IndexOfName(b.categories, name).None? {
      assert r.categories[..|b.categories|] == b.categories && r.categories[|b.categories|].name == name;
    }
  }

  /** The append step keeps the number of categories and every category's identifier,
      name and `excel_file`; it changes nothing when no category has the name, and
      otherwise draws one identifier and grows only a category with that name by one
      subcategory at the end. */
  lemma AddSubcategoryToEffect(b: Batch, name: string, subcategoryName: string)
    ensures var r := AddSubcategoryTo(b, name, subcategoryName);
      && |r.categories| == |b.categories|
      && ((forall k :: 0 <= k < |b.categories| ==> b.categories[k].name != name) ==> r == b)
      && ((exists k :: 0 <= k < |b.categories| && b.categories[k].name == name) ==> r.next == b.next + 1)
      && forall k :: 0 <= k < |b.categories| ==>
        && r.categories[k].id == b.categories[k].id && r.categories[k].name == b.categories[k].name
        && r.categories[k].excelFile == b.categories[k].excelFile
        && (|| r.categories[k].subcategories == b.categories[k].subcategories
            || (&& b.categories[k].name == name
                && r.categories[k].subcategories == b.categories[k].subcategories + [Subcategory(FreshId(b.next), subcategoryName)]))
  {
  }

  /** One pass of the loop: a row without a truthy category changes nothing; otherwise
      a category with the row's name exists afterwards. At most one category is added
      and at most two identifiers are drawn. */
  lemma ImportStepEffect(b: Batch, row: Row)
    ensures var r := ImportStep(b, row);
      && (!Truthy(row.category) ==> r == b)
      && (Truthy(row.category) ==> exists k :: 0 <= k < |r.categories| && r.categories[k].name == row.category.value)
      && |b.categories| <= |r.categories| <= |b.categories| + 1
      && b.next <= r.next <= b.next + 2
  {
    if Truthy(row.category) {
      var name := row.category.value;
      var b1 := EnsureCategory(b, name);
      EnsureCategoryEffect(b, name);
      var k :| 0 <= k < |b1.categories| && b1.categories[k].name == name;
      assert b.next <= b1.next <= b.next + 1 by {
        if exists j :: 0 <= j < |b.categories| && b.categories[j].name == name {
          assert b1 == b;
        } else {
          assert b1.next == b.next + 1;
        }
      }
      if Truthy(row.subcategory) {
        AddSubcategoryToEffect(b1, name, row.subcategory.value);
        assert ImportStep(b, row).categories[k].name == name;
      } else {
        assert ImportStep(b, row) == b1;
      }
    }
  }

  /** The import yields at most one category per row and draws at most two identifiers
      per row. */
  lemma {:induction false} ImportRowsBounds(rows: seq<Row>, next: nat)
    ensures var b := ImportRows(rows, next);
      |b.categories| <= |rows| && next <= b.next <= next + 2 * |rows|
  {
    if rows != [] {
      var prefix := rows[..|rows| - 1];
      ImportRowsBounds(prefix, next);
      ImportStepEffect(ImportRows(prefix, next), rows[|rows| - 1]);
    }
  }

  lemma EnsureCategoryProperties(b: Batch, name: string)
    requires UniqueNames(b.categories)
    ensures var b1 := EnsureCategory(b, name);
      && UniqueNames(b1.categories)
      && IndexOfName(b1.categories, name).Some?
      && Names(b1.categories) == if name in Names(b.categories) then Names(b.categories) else Names(b.categories) + [name]
  {
    assert IndexOfName(b.categories, name).None? <==> name !in Names(b.categories);
    var b1 := EnsureCategory(b, name);
    if name !in Names(b.categories) {
      assert b1.categories[|b.categories|].name == name;
    }
  }

  lemma AddSubcategoryToKeepsNames(b: Batch, name: string, subcategoryName: string)
    ensures Names(AddSubcategoryTo(b, name, subcategoryName).categories) == Names(b.categories)
  {
  }

  /** The loop run over `rows` in file order, starting with the counter at `next`. */
  function ImportRows(rows: seq<Row>, next: nat): Batch {
    if rows == [] then Batch([], next)
    else ImportStep(ImportRows(rows[..|rows| - 1], next), rows[|rows| - 1])
  }

  // ---------------------------------------------------------------------------
  // The loop itself, with `categoryMap` from name to the category's position
  // ---------------------------------------------------------------------------

  /** `categoryMap` maps each name of `cats` to the position of the category with that name. */
  ghost predicate Indexes(categoryMap: map<string, nat>, cats: seq<Category>) {
    && (forall n :: n in categoryMap ==> categoryMap[n] < |cats| && cats[categoryMap[n]].name == n)
    && (forall k :: 0 <= k < |cats| ==> cats[k].name in categoryMap)
  }

  lemma MapAgreesWithSearch(categoryMap: map<string, nat>, cats: seq<Category>, name: string)
    requires Indexes(categoryMap, cats) && UniqueNames(cats)
    ensures IndexOfName(cats, name) == if name in categoryMap then Some(categoryMap[name]) else None
  {
    if name in categoryMap {
      var r := IndexOfName(cats, name);
      assert r.Some?;
      assert r.value == categoryMap[name];
    }
  }

  lemma IndexesAfterNew(categoryMap: map<string, nat>, cats: seq<Category>, c: Category)
    requires Indexes(categoryMap, cats) && c.name !in categoryMap
    ensures Indexes(categoryMap[c.name := |cats|], cats + [c])
  {
  }

  lemma IndexesAfterUpdate(categoryMap: map<string, nat>, cats: seq<Category>, k: nat, c: Category)
    requires Indexes(categoryMap, cats) && k < |cats| && c.name == cats[k].name
    ensures Indexes(categoryMap, cats[k := c])
  {
  }

  /** One more row is one more step of the loop. */
  lemma ImportRowsStep(rows: seq<Row>, i: nat, next: nat)
    requires i < |rows|
    ensures ImportRows(rows[..i + 1], next) == ImportStep(ImportRows(rows[..i], next), rows[i])
  {
    assert rows[..i + 1][..i] == rows[..i];
  }

  /** Lines 53-61 when the name is not in `categoryMap`: the new category is pushed
      and recorded under its name. */
  lemma CreateStep(categoryMap: map<string, nat>, cats: seq<Category>, next: nat, name: string)
    requires Indexes(categoryMap, cats) && UniqueNames(cats) && name !in categoryMap
    ensures var c := NewCategory(FreshId(next), name);
      && Batch(cats + [c], next + 1) == EnsureCategory(Batch(cats, next), name)
      && Indexes(categoryMap[name := |cats|], cats + [c])
      && UniqueNames(cats + [c])
  {
    var c := NewCategory(FreshId(next), name);
    MapAgreesWithSearch(categoryMap, cats, name);
    IndexesAfterNew(categoryMap, cats, c);
  }

  /** Lines 63-71 when the name is in `categoryMap`: the subcategory is pushed onto the
      category recorded under that name. */
  lemma AppendStep(categoryMap: map<string, nat>, cats: seq<Category>, next: nat, name: string, subcategoryName: string)
    requires Indexes(categoryMap, cats) && UniqueNames(cats) && name in categoryMap
    ensures var k := categoryMap[name];
      var cats' := cats[k := AppendSubcategory(cats[k], Subcategory(FreshId(next), subcategoryName))];
      && Batch(cats', next + 1) == AddSubcategoryTo(Batch(cats, next), name, subcategoryName)
      && Indexes(categoryMap, cats')
      && UniqueNames(cats')
  {
    var k := categoryMap[name];
    MapAgreesWithSearch(categoryMap, cats, name);
    IndexesAfterUpdate(categoryMap, cats, k, AppendSubcategory(cats[k], Subcategory(FreshId(next), subcategoryName)));
  }

  /** The import loop of route.ts, with the map lookups of the source. */
  method Import(rows: seq<Row>, next: nat) returns (importedCategories: seq<Category>, next': nat)
    ensures Batch(importedCategories, next') == ImportRows(rows, next)
  {
    importedCategories := [];
    var categoryMap: map<string, nat> := map[];
    next' := next;
    var i := 0;
    while i < |rows|
      invariant 0 <= i <= |rows|
      invariant Batch(importedCategories, next') == ImportRows(rows[..i], next)
      invariant Indexes(categoryMap, importedCategories) && UniqueNames(importedCategories)
    {
      var row := rows[i];
      var categoryName := row.category;
      var subcategoryName := row.subcategory;
      if Truthy(categoryName) && categoryName.value !in categoryMap {
        CreateStep(categoryMap, importedCategories, next', categoryName.value);
        var newCategory := NewCategory(FreshId(next'), categoryName.value);
        next' := next' + 1;
        categoryMap := categoryMap[categoryName.value := |importedCategories|];
        importedCategories := importedCategories + [newCategory];
      } else if Truthy(categoryName) {
        MapAgreesWithSearch(categoryMap, importedCategories, categoryName.value);
      }
      if Truthy(categoryName) && Truthy(subcategoryName) {
        if categoryName.value in categoryMap {
          AppendStep(categoryMap, importedCategories, next', categoryName.value, subcategoryName.value);
          var k := categoryMap[categoryName.value];
          var category := importedCategories[k];
          var updated := AppendSubcategory(category, Subcategory(FreshId(next'), subcategoryName.value));
          importedCategories := importedCategories[k := updated];
          next' := next' + 1;
        }
      }
      ImportRowsStep(rows, i, next);
      i := i + 1;
    }
    assert rows[..|rows|] == rows;
  }

  // ---------------------------------------------------------------------------
  // Reference definitions the result is compared with
  // ---------------------------------------------------------------------------

  function Names(cats: seq<Category>): (r: seq<string>)
    ensures |r| == |cats| && forall k :: 0 <= k < |cats| ==> r[k] == cats[k].name
  {
    seq(|cats|, k requires 0 <= k < |cats| => cats[k].name)
  }

  function SubcategoryNames(c: Category): (r: seq<string>)
    ensures |r| == |c.subcategories| && forall j :: 0 <= j < |r| ==> r[j] == c.subcategories[j].name
  {
    seq(|c.subcategories|, j requires 0 <= j < |c.subcategories| => c.subcategories[j].name)
  }

  predicate Distinct(s: seq<string>) {
    forall i, j :: 0 <= i < j < |s| ==> s[i] != s[j]
  }

  /** The truthy category names of the rows, in file order, repeats included. */
  function CategoryKeys(rows: seq<Row>): seq<string> {
    if rows == [] then []
    else
      var row := rows[|rows| - 1];
      CategoryKeys(rows[..|rows| - 1]) + if Truthy(row.category) then [row.category.value] else []
  }

  /** `s` without repeats, each element kept at its first occurrence. */
  function Dedup(s: seq<string>): (r: seq<string>)
    ensures Distinct(r)
    ensures forall x :: x in r <==> x in s
  {
    if s == [] then []
    else
      var d := Dedup(s[..|s| - 1]);
      var x := s[|s| - 1];
      assert s == s[..|s| - 1] + [x];
      if x in d then d else d + [x]
  }

  /** The truthy subcategory values of the rows whose category is exactly `name`, in file order, repeats included. */
  function SubcategoryNamesFor(rows: seq<Row>, name: string): seq<string> {
    if rows == [] then []
    else
      var row := rows[|rows| - 1];
      SubcategoryNamesFor(rows[..|rows| - 1], name)
        + if Truthy(row.category) && row.category.value == name && Truthy(row.subcategory)
          then [row.subcategory.value] else []
  }

  /** The number of rows whose category and subcategory are both truthy. */
  function CountPairs(rows: seq<Row>): nat {
    if rows == [] then 0
    else
      var row := rows[|rows| - 1];
      CountPairs(rows[..|rows| - 1]) + if Truthy(row.category) && Truthy(row.subcategory) then 1 else 0
  }

  /** The number of subcategories of all categories. */
  function TotalSubcategories(cats: seq<Category>): nat {
    if cats == [] then 0 else TotalSubcategories(cats[..|cats| - 1]) + |cats[|cats| - 1].subcategories|
  }

  /** The rows with a truthy category name. */
  function NamedRows(rows: seq<Row>): seq<Row> {
    if rows == [] then []
    else
      var row := rows[|rows| - 1];
      NamedRows(rows[..|rows| - 1]) + if Truthy(row.category) then [row] else []
  }

  // ---------------------------------------------------------------------------
  // Names: one category per distinct name, in order of first occurrence
  // ---------------------------------------------------------------------------

  lemma StepNames(b: Batch, row: Row)
    requires UniqueNames(b.categories)
    ensures Names(ImportStep(b, row).categories) ==
      if Truthy(row.category) && row.category.value !in Names(b.categories)
      then Names(b.categories) + [row.category.value]
      else Names(b.categories)
  {
    if Truthy(row.category) {
      EnsureCategoryProperties(b, row.category.value);
      if Truthy(row.subcategory) {
        AddSubcategoryToKeepsNames(EnsureCategory(b, row.category.value), row.category.value, row.subcategory.value);
      }
    }
  }

  /** The imported categories are named after the distinct truthy category names of
      the rows, in order of first occurrence, compared exactly (case-sensitively). */
  lemma {:induction false} ImportNames(rows: seq<Row>, next: nat)
    ensures Names(ImportRows(rows, next).categories) == Dedup(CategoryKeys(rows))
  {
    if rows != [] {
      var prefix, row := rows[..|rows| - 1], rows[|rows| - 1];
      ImportNames(prefix, next);
      assert UniqueNames(ImportRows(prefix, next).categories);
      StepNames(ImportRows(prefix, next), row);
      var keys := CategoryKeys(prefix);
      if Truthy(row.category) {
        assert CategoryKeys(rows) == keys + [row.category.value];
        assert CategoryKeys(rows)[..|CategoryKeys(rows)| - 1] == keys;
      } else {
        assert CategoryKeys(rows) == keys;
      }
    }
  }

  lemma ImportUniqueNames(rows: seq<Row>, next: nat)
    ensures UniqueNames(ImportRows(rows, next).categories)
  {
    ImportNames(rows, next);
  }

  /** A name gets a category exactly when some row carries it as a truthy category name. */
  lemma ImportedNameIffListed(rows: seq<Row>, next: nat, name: string)
    ensures name in Names(ImportRows(rows, next).categories) <==> name in CategoryKeys(rows)
  {
    ImportNames(rows, next);
  }

  // ---------------------------------------------------------------------------
  // Subcategories: those of the rows with that category name, in file order
  // ---------------------------------------------------------------------------

  /** Every category's subcategory names are those of its rows. */
  ghost predicate SubcategoriesMatch(cats: seq<Category>, rows: seq<Row>) {
    forall k :: 0 <= k < |cats| ==> SubcategoryNames(cats[k]) == SubcategoryNamesFor(rows, cats[k].name)
  }

  lemma {:induction false} UnlistedNameHasNoSubcategories(rows: seq<Row>, name: string)
    requires name !in CategoryKeys(rows)
    ensures SubcategoryNamesFor(rows, name) == []
  {
    if rows != [] {
      var prefix := rows[..|rows| - 1];
      assert CategoryKeys(rows) == CategoryKeys(prefix) + if Truthy(rows[|rows| - 1].category) then [rows[|rows| - 1].category.value] else [];
      UnlistedNameHasNoSubcategories(prefix, name);
    }
  }

  lemma SubcategoryNamesForStep(prefix: seq<Row>, row: Row, x: string)
    ensures SubcategoryNamesFor(prefix + [row], x) == SubcategoryNamesFor(prefix, x)
      + if Truthy(row.category) && row.category.value == x && Truthy(row.subcategory) then [row.subcategory.value] else []
  {
    assert (prefix + [row])[..|prefix|] == prefix;
  }

  /** Creating a category whose name no earlier row carried keeps the match. */
  lemma EnsureCategoryKeepsMatch(prefix: seq<Row>, next: nat, name: string)
    requires SubcategoriesMatch(ImportRows(prefix, next).categories, prefix)
    ensures SubcategoriesMatch(EnsureCategory(ImportRows(prefix, next), name).categories, prefix)
  {
    var b := ImportRows(prefix, next);
    if IndexOfName(b.categories, name).None? {
      ImportNames(prefix, next);
      assert name !in Names(b.categories);
      assert name !in CategoryKeys(prefix);
      UnlistedNameHasNoSubcategories(prefix, name);
    }
  }

  /** A row without a truthy pair adds no subcategory to any name. */
  lemma RowWithoutPairKeepsMatch(cats: seq<Category>, prefix: seq<Row>, row: Row)
    requires !(Truthy(row.category) && Truthy(row.subcategory))
    requires SubcategoriesMatch(cats, prefix)
    ensures SubcategoriesMatch(cats, prefix + [row])
  {
    forall k | 0 <= k < |cats| ensures SubcategoryNames(cats[k]) == SubcategoryNamesFor(prefix + [row], cats[k].name) {
      SubcategoryNamesForStep(prefix, row, cats[k].name);
    }
  }

  /** Appending the row's subcategory to the category of its name keeps the match. */
  lemma AddSubcategoryKeepsMatch(b: Batch, prefix: seq<Row>, row: Row)
    requires Truthy(row.category) && Truthy(row.subcategory)
    requires UniqueNames(b.categories) && IndexOfName(b.categories, row.category.value).Some?
    requires SubcategoriesMatch(b.categories, prefix)
    ensures SubcategoriesMatch(AddSubcategoryTo(b, row.category.value, row.subcategory.value).categories, prefix + [row])
  {
    var name := row.category.value;
    var k := IndexOfName(b.categories, name).value;
    var after := AddSubcategoryTo(b, name, row.subcategory.value).categories;
    forall j | 0 <= j < |after| ensures SubcategoryNames(after[j]) == SubcategoryNamesFor(prefix + [row], after[j].name) {
      SubcategoryNamesForStep(prefix, row, after[j].name);
      if j == k {
        assert SubcategoryNames(after[j]) == SubcategoryNames(b.categories[k]) + [row.subcategory.value];
      } else {
        assert after[j] == b.categories[j];
        assert after[j].name != name;
      }
    }
  }

  lemma StepSubcategories(prefix: seq<Row>, row: Row, next: nat)
    requires SubcategoriesMatch(ImportRows(prefix, next).categories, prefix)
    ensures SubcategoriesMatch(ImportRows(prefix + [row], next).categories, prefix + [row])
  {
    var rows := prefix + [row];
    assert rows[..|rows| - 1] == prefix;
    var b := ImportRows(prefix, next);
    assert ImportRows(rows, next) == ImportStep(b, row);
    if Truthy(row.category) {
      var name := row.category.value;
      ImportUniqueNames(prefix, next);
      EnsureCategoryProperties(b, name);
      EnsureCategoryKeepsMatch(prefix, next, name);
      if Truthy(row.subcategory) {
        AddSubcategoryKeepsMatch(EnsureCategory(b, name), prefix, row);
      } else {
        RowWithoutPairKeepsMatch(EnsureCategory(b, name).categories, prefix, row);
      }
    } else {
      RowWithoutPairKeepsMatch(b.categories, prefix, row);
    }
  }

  /** Each imported category's subcategory names are the truthy subcategory values
      of the rows with exactly that category name, in file order, repeats kept. */
  lemma {:induction false} ImportSubcategories(rows: seq<Row>, next: nat)
    ensures SubcategoriesMatch(ImportRows(rows, next).categories, rows)
  {
    if rows != [] {
      var prefix := rows[..|rows| - 1];
      ImportSubcategories(prefix, next);
      StepSubcategories(prefix, rows[|rows| - 1], next);
      assert prefix + [rows[|rows| - 1]] == rows;
    }
  }

  // ---------------------------------------------------------------------------
  // Counts and identifiers
  // ---------------------------------------------------------------------------

  lemma {:induction false} TotalSubcategoriesUpdate(cats: seq<Category>, k: nat, c: Category)
    requires k < |cats|
    ensures TotalSubcategories(cats[k := c]) == TotalSubcategories(cats) - |cats[k].subcategories| + |c.subcategories|
  {
    var n := |cats|;
    if k < n - 1 {
      assert cats[k := c][..n - 1] == cats[..n - 1][k := c];
      TotalSubcategoriesUpdate(cats[..n - 1], k, c);
    } else {
      assert cats[k := c][..n - 1] == cats[..n - 1];
    }
  }

  /** A position that holds an identifier: a category's own, or one of its subcategories'. */
  datatype IdSlot = CategorySlot(i: nat) | SubcategorySlot(i: nat, j: nat)

  predicate ValidSlot(cats: seq<Category>, p: IdSlot) {
    match p
    case CategorySlot(i) => i < |cats|
    case SubcategorySlot(i, j) => i < |cats| && j < |cats[i].subcategories|
  }

  function IdAt(cats: seq<Category>, p: IdSlot): Id
    requires ValidSlot(cats, p)
  {
    match p
    case CategorySlot(i) => cats[i].id
    case SubcategorySlot(i, j) => cats[i].subcategories[j].id
  }

  /** No identifier occurs twice among the categories and subcategories of `cats`. */
  ghost predicate IdsDistinct(cats: seq<Category>) {
    forall p, q :: ValidSlot(cats, p) && ValidSlot(cats, q) && p != q ==> IdAt(cats, p) != IdAt(cats, q)
  }

  /** Every identifier in `cats` was issued while the counter ran through `[lo, hi)`. */
  ghost predicate IdsIssuedIn(cats: seq<Category>, lo: nat, hi: nat) {
    forall p :: ValidSlot(cats, p) ==> IssuedIn(IdAt(cats, p), lo, hi)
  }

  /** `cats'` holds the identifiers of `cats` plus `FreshId(hi)` at `added`, and no others. */
  ghost predicate AddsOneId(cats: seq<Category>, cats': seq<Category>, added: IdSlot, hi: nat) {
    && ValidSlot(cats', added) && IdAt(cats', added) == FreshId(hi) && !ValidSlot(cats, added)
    && forall p :: ValidSlot(cats', p) && p != added ==> ValidSlot(cats, p) && IdAt(cats', p) == IdAt(cats, p)
  }

  lemma AddOneIdKeepsIds(cats: seq<Category>, cats': seq<Category>, added: IdSlot, lo: nat, hi: nat)
    requires lo <= hi
    requires IdsDistinct(cats) && IdsIssuedIn(cats, lo, hi)
    requires AddsOneId(cats, cats', added, hi)
    ensures IdsDistinct(cats') && IdsIssuedIn(cats', lo, hi + 1)
  {
    FreshIdIssuedIn(hi, lo, hi + 1);
    forall p | ValidSlot(cats', p) && p != added ensures IdAt(cats', p) != FreshId(hi) {
      IssuedElsewhereDiffers(IdAt(cats, p), lo, hi, hi);
    }
  }

  /** The identifiers of `b` are distinct and drawn from `[lo, b.next)`, one per
      category and one per subcategory. */
  ghost predicate IdsInvariant(b: Batch, lo: nat) {
    && lo <= b.next
    && IdsDistinct(b.categories) && IdsIssuedIn(b.categories, lo, b.next)
    && b.next == lo + |b.categories| + TotalSubcategories(b.categories)
  }

  lemma EnsureCategoryIds(b: Batch, name: string, lo: nat)
    requires IdsInvariant(b, lo)
    ensures IdsInvariant(EnsureCategory(b, name), lo)
  {
    if IndexOfName(b.categories, name).None? {
      var cats' := EnsureCategory(b, name).categories;
      assert cats'[..|cats'| - 1] == b.categories;
      forall p | ValidSlot(cats', p) && p != CategorySlot(|b.categories|)
        ensures ValidSlot(b.categories, p) && IdAt(cats', p) == IdAt(b.categories, p)
      {
      }
      AddOneIdKeepsIds(b.categories, cats', CategorySlot(|b.categories|), lo, b.next);
    }
  }

  lemma AddSubcategoryIds(b: Batch, name: string, subcategoryName: string, lo: nat)
    requires IdsInvariant(b, lo)
    ensures IdsInvariant(AddSubcategoryTo(b, name, subcategoryName), lo)
  {
    var r := IndexOfName(b.categories, name);
    if r.Some? {
      var k := r.value;
      var c := b.categories[k];
      var c' := AppendSubcategory(c, Subcategory(FreshId(b.next), subcategoryName));
      var cats' := b.categories[k := c'];
      var added := SubcategorySlot(k, |c.subcategories|);
      forall p | ValidSlot(cats', p) && p != added
        ensures ValidSlot(b.categories, p) && IdAt(cats', p) == IdAt(b.categories, p)
      {
        if p.SubcategorySlot? && p.i == k {
          assert c'.subcategories[p.j] == c.subcategories[p.j];
        }
      }
      AddOneIdKeepsIds(b.categories, cats', added, lo, b.next);
      TotalSubcategoriesUpdate(b.categories, k, c');
    }
  }

  lemma StepIds(b: Batch, row: Row, lo: nat)
    requires IdsInvariant(b, lo)
    ensures IdsInvariant(ImportStep(b, row), lo)
  {
    if Truthy(row.category) {
      EnsureCategoryIds(b, row.category.value, lo);
      if Truthy(row.subcategory) {
        AddSubcategoryIds(EnsureCategory(b, row.category.value), row.category.value, row.subcategory.value, lo);
      }
    }
  }

  /** Every identifier of the batch is freshly drawn and no two coincide; the
      counter advances once per category and once per subcategory. */
  lemma {:induction false} ImportIds(rows: seq<Row>, next: nat)
    ensures var b := ImportRows(rows, next);
      && IdsDistinct(b.categories)
      && IdsIssuedIn(b.categories, next, b.next)
      && b.next == next + |b.categories| + TotalSubcategories(b.categories)
  {
    if rows != [] {
      ImportIds(rows[..|rows| - 1], next);
      StepIds(ImportRows(rows[..|rows| - 1], next), rows[|rows| - 1], next);
    }
  }

  /** One pass of the loop adds a subcategory exactly when the row's category and
      subcategory are both truthy. */
  lemma StepSubcategoryCount(b: Batch, row: Row)
    requires UniqueNames(b.categories)
    ensures TotalSubcategories(ImportStep(b, row).categories)
      == TotalSubcategories(b.categories) + if Truthy(row.category) && Truthy(row.subcategory) then 1 else 0
  {
    if Truthy(row.category) {
      var name := row.category.value;
      var b1 := EnsureCategory(b, name);
      EnsureCategoryProperties(b, name);
      if IndexOfName(b.categories, name).None? {
        assert b1.categories[..|b1.categories| - 1] == b.categories;
      }
      assert TotalSubcategories(b1.categories) == TotalSubcategories(b.categories);
      if Truthy(row.subcategory) {
        var k := IndexOfName(b1.categories, name).value;
        TotalSubcategoriesUpdate(b1.categories, k, AppendSubcategory(b1.categories[k], Subcategory(FreshId(b1.next), row.subcategory.value)));
      }
    }
  }

  lemma {:induction false} ImportSubcategoryCount(rows: seq<Row>, next: nat)
    ensures TotalSubcategories(ImportRows(rows, next).categories) == CountPairs(rows)
  {
    if rows != [] {
      var prefix := rows[..|rows| - 1];
      ImportSubcategoryCount(prefix, next);
      ImportUniqueNames(prefix, next);
      StepSubcategoryCount(ImportRows(prefix, next), rows[|rows| - 1]);
    }
  }

  /** One category per distinct truthy name; one subcategory per row whose category
      and subcategory are both truthy. */
  lemma ImportCounts(rows: seq<Row>, next: nat)
    ensures |ImportRows(rows, next).categories| == |Dedup(CategoryKeys(rows))|
    ensures TotalSubcategories(ImportRows(rows, next).categories) == CountPairs(rows)
  {
    ImportNames(rows, next);
    ImportSubcategoryCount(rows, next);
  }

  // ---------------------------------------------------------------------------
  // Rows without a category name
  // ---------------------------------------------------------------------------

  /** A row whose category name is falsy contributes nothing, not even its
      subcategory, and draws no identifier: importing only the named rows gives
      the same batch. */
  lemma {:induction false} UnnamedRowsIgnored(rows: seq<Row>, next: nat)
    ensures ImportRows(NamedRows(rows), next) == ImportRows(rows, next)
  {
    if rows != [] {
      var prefix, row := rows[..|rows| - 1], rows[|rows| - 1];
      UnnamedRowsIgnored(prefix, next);
      var named := NamedRows(rows);
      assert ImportRows(rows, next) == ImportStep(ImportRows(prefix, next), row);
      if Truthy(row.category) {
        assert named == NamedRows(prefix) + [row];
        assert named[..|named| - 1] == NamedRows(prefix);
        assert ImportRows(named, next) == ImportStep(ImportRows(NamedRows(prefix), next), row);
      } else {
        assert named == NamedRows(prefix);
      }
    }
  }

  /** A row with a category and no subcategory (absent or empty) still yields that category. */
  lemma CategoryOnlyRowCreatesCategory(rows: seq<Row>, next: nat, row: Row)
    requires row in rows && Truthy(row.category) && !Truthy(row.subcategory)
    ensures row.category.value in Names(ImportRows(rows, next).categories)
  {
    ImportNames(rows, next);
    RowListed(rows, row);
  }

  lemma {:induction false} RowListed(rows: seq<Row>, row: Row)
    requires row in rows && Truthy(row.category)
    ensures row.category.value in CategoryKeys(rows)
  {
    var prefix := rows[..|rows| - 1];
    assert rows == prefix + [rows[|rows| - 1]];
    if row != rows[|rows| - 1] {
      RowListed(prefix, row);
    }
  }

  /** The rows `(Fruit, Apple), (Fruit, Banana), (Veg, Carrot)` give two categories:
      Fruit with Apple and Banana, and Veg with Carrot, identifiers drawn in row order. */
  lemma FruitAndVegExample(n: nat)
    ensures ImportRows([Row(Some("Fruit"), Some("Apple")), Row(Some("Fruit"), Some("Banana")), Row(Some("Veg"), Some("Carrot"))], n)
      == Batch([Category(FreshId(n), "Fruit", None, [Subcategory(FreshId(n + 1), "Apple"), Subcategory(FreshId(n + 2), "Banana")]),
                Category(FreshId(n + 3), "Veg", None, [Subcategory(FreshId(n + 4), "Carrot")])], n + 5)
  {
    var r1, r2, r3 := Row(Some("Fruit"), Some("Apple")), Row(Some("Fruit"), Some("Banana")), Row(Some("Veg"), Some("Carrot"));
    var rows := [r1, r2, r3];
    assert rows[..2] == [r1, r2] && [r1, r2][..1] == [r1] && [r1][..0] == [];
    var apple, banana, carrot := Subcategory(FreshId(n + 1), "Apple"), Subcategory(FreshId(n + 2), "Banana"), Subcategory(FreshId(n + 4), "Carrot");
    var fruit := Category(FreshId(n), "Fruit", None, [apple]);
    var fruit2 := Category(FreshId(n), "Fruit", None, [apple, banana]);
    var veg := Category(FreshId(n + 3), "Veg", None, [carrot]);
    ExampleFirstRow(n, r1, apple, fruit);
    assert ImportRows([r1], n) == Batch([fruit], n + 2);
    ExampleSecondRow(n, r2, banana, fruit, fruit2);
    assert ImportRows([r1, r2], n) == Batch([fruit2], n + 3);
    ExampleThirdRow(n, r3, carrot, fruit2, veg);
  }

  lemma ExampleFirstRow(n: nat, r1: Row, apple: Subcategory, fruit: Category)
    requires r1 == Row(Some("Fruit"), Some("Apple")) && apple == Subcategory(FreshId(n + 1), "Apple")
    requires fruit == Category(FreshId(n), "Fruit", None, [apple])
    ensures ImportStep(Batch([], n), r1) == Batch([fruit], n + 2)
  {
    var fruit0 := NewCategory(FreshId(n), "Fruit");
    assert EnsureCategory(Batch([], n), "Fruit") == Batch([fruit0], n + 1);
    assert IndexOfName([fruit0], "Fruit") == Some(0);
    assert fruit0.subcategories + [apple] == [apple];
  }

  lemma ExampleSecondRow(n: nat, r2: Row, banana: Subcategory, fruit: Category, fruit2: Category)
    requires r2 == Row(Some("Fruit"), Some("Banana")) && banana == Subcategory(FreshId(n + 2), "Banana")
    requires fruit.name == "Fruit" && fruit2 == AppendSubcategory(fruit, banana)
    ensures ImportStep(Batch([fruit], n + 2), r2) == Batch([fruit2], n + 3)
  {
    assert IndexOfName([fruit], "Fruit") == Some(0);
  }

  lemma ExampleThirdRow(n: nat, r3: Row, carrot: Subcategory, fruit2: Category, veg: Category)
    requires r3 == Row(Some("Veg"), Some("Carrot")) && carrot == Subcategory(FreshId(n + 4), "Carrot")
    requires fruit2.name == "Fruit" && veg == Category(FreshId(n + 3), "Veg", None, [carrot])
    ensures ImportStep(Batch([fruit2], n + 3), r3) == Batch([fruit2, veg], n + 5)
  {
    var veg0 := NewCategory(FreshId(n + 3), "Veg");
    assert IndexOfName([fruit2], "Veg") == None;
    assert EnsureCategory(Batch([fruit2], n + 3), "Veg") == Batch([fruit2, veg0], n + 4);
    assert IndexOfName([fruit2, veg0], "Veg") == Some(1);
    assert veg0.subcategories + [carrot] == [carrot];
  }
}
