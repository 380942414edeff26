/** The decision logic of the category management page, src/app/page.tsx: which request
    each handler dispatches, if any, given the cached category list and the page's input
    fields, and how the handler then updates those fields. The functions decide; the
    `CategoryManagement` class holds the component state and applies a decision. */
module CategoryPage {
  import opened Common
  import opened Ids
  import opened CategoryModel
  import opened CategoryRoute

  /** The thunks the page dispatches, with the bodies they send. */
  datatype Request =
    | CreateRequest(newName: string, newSubcategories: seq<Subcategory>)
    | UpdateRequest(categoryId: Id, name: Option<string>, subcategories: Option<seq<Subcategory>>)
    | DeleteRequest(categoryId: Id)

  // ---------------------------------------------------------------------------
  // Searches of the cached list
  // ---------------------------------------------------------------------------

  /** `cats.find(cat => cat.name.toLowerCase() === name.toLowerCase())`, as an index. */
  function FindNameIgnoringCase(cats: seq<Category>, name: string): (r: Option<nat>)
    ensures r.Some? ==> r.value < |cats| && EqualsIgnoringCase(cats[r.value].name, name)
    ensures r.Some? ==> forall k :: 0 <= k < r.value ==> !EqualsIgnoringCase(cats[k].name, name)
    ensures r.None? <==> forall k :: 0 <= k < |cats| ==> !EqualsIgnoringCase(cats[k].name, name)
  {
    if cats == [] then None
    else if EqualsIgnoringCase(cats[0].name, name) then Some(0)
    else match FindNameIgnoringCase(cats[1..], name)
      case None => None
      case Some(k) => Some(k + 1)
  }

  /** Some category other than the one with identifier `id` has `name`, ignoring case. */
  predicate OtherNamedIgnoringCase(cats: seq<Category>, id: Id, name: string) {
    exists k :: 0 <= k < |cats| && cats[k].id != id && EqualsIgnoringCase(cats[k].name, name)
  }

  /** Some subcategory of the list has `name`, ignoring case. */
  predicate SubcategoryNamedIgnoringCase(subs: seq<Subcategory>, name: string) {
    exists j :: 0 <= j < |subs| && EqualsIgnoringCase(subs[j].name, name)
  }

  /** `subs.filter(sub => sub.id !== id)`. */
  function WithoutSubcategory(subs: seq<Subcategory>, id: Id): (r: seq<Subcategory>)
    ensures |r| <= |subs|
    ensures forall j :: 0 <= j < |r| ==> r[j].id != id
  {
    if subs == [] then []
    else (if subs[0].id == id then [] else [subs[0]]) + WithoutSubcategory(subs[1..], id)
  }

  /** The filter keeps exactly the entries with another identifier. */
  lemma {:induction false} WithoutSubcategoryMembers(subs: seq<Subcategory>, id: Id, s: Subcategory)
    ensures s in WithoutSubcategory(subs, id) <==> s in subs && s.id != id
  {
    if subs != [] {
      WithoutSubcategoryMembers(subs[1..], id, s);
      assert subs == [subs[0]] + subs[1..];
    }
  }

  /** The filter keeps the relative order: it distributes over concatenation. */
  lemma {:induction false} WithoutSubcategoryKeepsOrder(a: seq<Subcategory>, b: seq<Subcategory>, id: Id)
    ensures WithoutSubcategory(a + b, id) == WithoutSubcategory(a, id) + WithoutSubcategory(b, id)
  {
    if a == [] {
      assert a + b == b;
    } else {
      assert (a + b)[0] == a[0] && (a + b)[1..] == a[1..] + b;
      WithoutSubcategoryKeepsOrder(a[1..], b, id);
    }
  }

  // ---------------------------------------------------------------------------
  // The decisions (lines 74-194)
  // ---------------------------------------------------------------------------

  /** `addCategory`: a blank input sends nothing; a name already listed, ignoring case,
      sends an update of the first such category with the trimmed name; any other name
      sends a create with the trimmed name and no subcategories. */
  function AddCategoryDecision(cats: seq<Category>, input: string): (r: Option<Request>)
    ensures r.None? <==> Blank(input)
  {
    var name := Trim(input);
    if name == "" then None
    else match FindNameIgnoringCase(cats, name)
      case Some(k) => Some(UpdateRequest(cats[k].id, Some(name), None))
      case None => Some(CreateRequest(name, []))
  }

  /** What `addCategory` sends for a non-blank input: a create exactly when no listed
      name matches the trimmed input ignoring case, and otherwise a rename of a
      category whose name matches. */
  lemma AddCategoryDecisionCases(cats: seq<Category>, input: string)
    requires !Blank(input)
    ensures var r := AddCategoryDecision(cats, input).value;
      && (r.CreateRequest? <==> forall k :: 0 <= k < |cats| ==> !EqualsIgnoringCase(cats[k].name, Trim(input)))
      && (r.CreateRequest? ==> r == CreateRequest(Trim(input), []))
      && (!r.CreateRequest? ==>
        && r.UpdateRequest? && r.name == Some(Trim(input)) && r.subcategories.None?
        && exists k :: 0 <= k < |cats| && cats[k].id == r.categoryId && EqualsIgnoringCase(cats[k].name, Trim(input)))
  {
  }

  /** `addSubcategory(categoryId)`: nothing is sent when the category's input is absent
      or blank, when no cached category has that identifier, or when that category
      already has a subcategory with the trimmed name ignoring case; otherwise an
      update with the category's list followed by one new entry, identified by `newId`. */
  function AddSubcategoryDecision(cats: seq<Category>, inputs: map<Id, string>, categoryId: Id, newId: Id): (r: Option<Request>)
    ensures r.None? <==>
      || categoryId !in inputs || Blank(inputs[categoryId])
      || IndexOfId(cats, categoryId).None?
      || SubcategoryNamedIgnoringCase(cats[IndexOfId(cats, categoryId).value].subcategories, Trim(inputs[categoryId]))
    ensures r.Some? ==>
      var c := cats[IndexOfId(cats, categoryId).value];
      && r.value.UpdateRequest? && r.value.categoryId == categoryId && r.value.name.None?
      && r.value.subcategories.Some?
      && |r.value.subcategories.value| == |c.subcategories| + 1
      && r.value.subcategories.value[..|c.subcategories|] == c.subcategories
      && r.value.subcategories.value[|c.subcategories|] == Subcategory(newId, Trim(inputs[categoryId]))
  {
    if categoryId !in inputs then None
    else
      var name := Trim(inputs[categoryId]);
      if name == "" then None
      else match IndexOfId(cats, categoryId)
        case None => None
        case Some(i) =>
          var subs := cats[i].subcategories;
          if SubcategoryNamedIgnoringCase(subs, name) then None
          else
            var list := subs + [Subcategory(newId, name)];
            assert list[..|subs|] == subs;
            Some(UpdateRequest(categoryId, None, Some(list)))
  }

  /** `removeSubcategory(categoryId, subcategoryId)`: nothing when no cached category has
      that identifier; otherwise an update with that category's list, every entry with
      the subcategory identifier removed and the rest in order. */
  function RemoveSubcategoryDecision(cats: seq<Category>, categoryId: Id, subcategoryId: Id): (r: Option<Request>)
    ensures r.None? <==> forall k :: 0 <= k < |cats| ==> cats[k].id != categoryId
    ensures r.Some? ==>
      var c := cats[IndexOfId(cats, categoryId).value];
      && r.value.UpdateRequest? && r.value.categoryId == categoryId && r.value.name.None?
      && r.value.subcategories.Some?
      && r.value.subcategories.value == WithoutSubcategory(c.subcategories, subcategoryId)
      && (forall s :: s in r.value.subcategories.value <==> s in c.subcategories && s.id != subcategoryId)
  {
    match IndexOfId(cats, categoryId)
    case None => None
    case Some(i) =>
      var list := WithoutSubcategory(cats[i].subcategories, subcategoryId);
      assert forall s :: s in list <==> s in cats[i].subcategories && s.id != subcategoryId by {
        forall s ensures s in list <==> s in cats[i].subcategories && s.id != subcategoryId {
          WithoutSubcategoryMembers(cats[i].subcategories, subcategoryId, s);
        }
      }
      Some(UpdateRequest(categoryId, None, Some(list)))
  }

  /** What `updateCategoryName` does: return at once, drop the edit because another
      category has the name, or send the rename. */
  datatype Rename = Ignore | Collision | Send(request: Request)

  /** `updateCategoryName`: ignored when nothing is being edited or the edited name is
      blank; dropped when another category has the trimmed name ignoring case; sent as
      an update of the edited category with the trimmed name otherwise. */
  function RenameDecision(cats: seq<Category>, editingId: Option<Id>, editingName: string): (r: Rename)
    ensures r.Ignore? <==> !Truthy(editingId) || Blank(editingName)
    ensures r.Collision? <==>
      (Truthy(editingId) && !Blank(editingName) && OtherNamedIgnoringCase(cats, editingId.value, Trim(editingName)))
    ensures r.Send? ==> r.request == UpdateRequest(editingId.value, Some(Trim(editingName)), None)
  {
    if !Truthy(editingId) || Trim(editingName) == "" then Ignore
    else if OtherNamedIgnoringCase(cats, editingId.value, Trim(editingName)) then Collision
    else Send(UpdateRequest(editingId.value, Some(Trim(editingName)), None))
  }

  // ---------------------------------------------------------------------------
  // What the route makes of the page's requests
  // ---------------------------------------------------------------------------

  /** The JSON body the route receives for an update request. */
  function UpdateBodyOf(r: Request): UpdateBody
    requires r.UpdateRequest?
  {
    UpdateBody(Some(r.categoryId), r.name,
      if r.subcategories.Some? then Items(seq(|r.subcategories.value|, j requires 0 <= j < |r.subcategories.value| =>
        SubcategoryInput(Some(r.subcategories.value[j].id), Some(r.subcategories.value[j].name))))
      else Missing)
  }

  /** A create the page sends for a list equal to the collection succeeds: its name is
      not blank and, since no listed name matches it even ignoring case, no stored name
      equals it. */
  lemma PageCreateSucceeds(store: seq<Category>, input: string, next: nat)
    requires IdsBefore(store, next)
    requires AddCategoryDecision(store, input).Some? && AddCategoryDecision(store, input).value.CreateRequest?
    ensures PostJson(store, CreateBody(Some(Trim(input)), Items([])), next).response.Created?
  {
    var name := Trim(input);
    var body := CreateBody(Some(name), Items([]));
    AddCategoryDecisionCases(store, input);
    TrimIdempotent(input);
    assert Truthy(body.name) && !Blank(name);
    assert NamesSent(body.subcategories.items);
    forall k | 0 <= k < |store| ensures store[k].name != Trim(name) {
      assert !EqualsIgnoringCase(store[k].name, name);
    }
    CreateSucceedsIff(store, body, next);
  }

  /** A rename the page sends for a valid collection it mirrors, of a stored category,
      is applied: the name is not blank and no other record has it. */
  lemma PageRenameSucceeds(store: seq<Category>, editingId: Id, editingName: string, next: nat)
    requires StoreValid(store)
    requires exists k :: 0 <= k < |store| && store[k].id == editingId
    requires RenameDecision(store, Some(editingId), editingName).Send?
    ensures UpdateBodyOf(RenameDecision(store, Some(editingId), editingName).request)
      == UpdateBody(Some(editingId), Some(Trim(editingName)), Missing)
    ensures Put(store, UpdateBody(Some(editingId), Some(Trim(editingName)), Missing), next).response.Updated?
  {
    var name := Trim(editingName);
    var body := UpdateBody(Some(editingId), Some(name), Missing);
    var i := IndexOfId(store, editingId).value;
    TrimIdempotent(editingName);
    assert !OtherNamedIgnoringCase(store, editingId, name);
    assert !NameTakenByOther(store, i, name) by {
      forall j | 0 <= j < |store| && j != i ensures store[j].name != name {
        assert store[j].id != editingId;
        if store[j].name == name {
          EqualImpliesEqualIgnoringCase(store[j].name, name);
        }
      }
    }
    assert ValidateUpdate(body, next).0.Ok?;
    PutSucceedsIff(store, body, next);
  }

  /** A new subcategory the page sends for a valid collection it mirrors is applied:
      every name in the list is a stored, hence non-blank, name or the trimmed input. */
  lemma PageAddSubcategorySucceeds(store: seq<Category>, inputs: map<Id, string>, categoryId: Id, newId: Id, next: nat)
    requires StoreValid(store) && newId != ""
    requires AddSubcategoryDecision(store, inputs, categoryId, newId).Some?
    ensures Put(store, UpdateBodyOf(AddSubcategoryDecision(store, inputs, categoryId, newId).value), next).response.Updated?
  {
    var r := AddSubcategoryDecision(store, inputs, categoryId, newId).value;
    var body := UpdateBodyOf(r);
    var list := r.subcategories.value;
    var c := store[IndexOfId(store, categoryId).value];
    var items := body.subcategories.items;
    forall j | 0 <= j < |items| ensures items[j].name.Some? && !Blank(items[j].name.value) {
      if j < |c.subcategories| {
        assert list[j] == c.subcategories[j];
        assert StoredSubcategory(c.subcategories[j]);
      }
    }
    assert NamesSent(items);
    var validated := ValidateUpdate(body, next);
    assert validated.0.Ok?;
    PutSucceedsIff(store, body, next);
  }

  /** When a name typed into the add field matches a listed name ignoring case, the
      page sends a rename of the first such category to the trimmed input, and the route
      applies it exactly when no other record has that name exactly. */
  lemma PageAddCategoryRenameIff(store: seq<Category>, input: string, next: nat)
    requires StoreValid(store)
    requires AddCategoryDecision(store, input).Some? && AddCategoryDecision(store, input).value.UpdateRequest?
    ensures var i := FindNameIgnoringCase(store, Trim(input)).value;
      var body := UpdateBodyOf(AddCategoryDecision(store, input).value);
      && body == UpdateBody(Some(store[i].id), Some(Trim(input)), Missing)
      && (Put(store, body, next).response.Updated? <==>
          forall j :: 0 <= j < |store| && j != i ==> store[j].name != Trim(input))
  {
    var name := Trim(input);
    var i := FindNameIgnoringCase(store, name).value;
    var body := UpdateBody(Some(store[i].id), Some(name), Missing);
    TrimIdempotent(input);
    IndexOfIdUnique(store, store[i].id, i);
    assert ValidateUpdate(body, next).0.Ok?;
    assert NameTakenByOther(store, i, name) <==> exists j :: 0 <= j < |store| && j != i && store[j].name == name;
    PutSucceedsIff(store, body, next);
  }

  /** So the add field can send a request the route refuses: with two categories whose
      names differ only in case, typing the later one's exact name renames the earlier
      one to it, which the unique name index rejects, and nothing changes. */
  lemma AddCategoryRenameRefused(store: seq<Category>, input: string, j: nat, next: nat)
    requires StoreValid(store) && j < |store| && store[j].name == Trim(input)
    requires exists i :: 0 <= i < j && EqualsIgnoringCase(store[i].name, store[j].name)
    ensures var r := AddCategoryDecision(store, input);
      && r.Some? && r.value.UpdateRequest? && r.value.categoryId != store[j].id
      && Put(store, UpdateBodyOf(r.value), next).response == ServerError(UpdateFailed)
      && Put(store, UpdateBodyOf(r.value), next).store == store
  {
    var name := Trim(input);
    var i :| 0 <= i < j && EqualsIgnoringCase(store[i].name, store[j].name);
    assert !Blank(input);
    var f := FindNameIgnoringCase(store, name);
    assert f.Some? && f.value <= i;
    var body := UpdateBody(Some(store[f.value].id), Some(name), Missing);
    TrimIdempotent(input);
    IndexOfIdUnique(store, store[f.value].id, f.value);
    PutDuplicateNameFails(store, body, next, f.value, j);
  }

  /** A subcategory removal the page sends for a valid collection it mirrors is applied:
      every name left in the list is a stored, hence non-blank, name. */
  lemma PageRemoveSubcategorySucceeds(store: seq<Category>, categoryId: Id, subcategoryId: Id, next: nat)
    requires StoreValid(store)
    requires RemoveSubcategoryDecision(store, categoryId, subcategoryId).Some?
    ensures Put(store, UpdateBodyOf(RemoveSubcategoryDecision(store, categoryId, subcategoryId).value), next).response.Updated?
  {
    var r := RemoveSubcategoryDecision(store, categoryId, subcategoryId).value;
    var body := UpdateBodyOf(r);
    var list := r.subcategories.value;
    var c := store[IndexOfId(store, categoryId).value];
    var items := body.subcategories.items;
    forall j | 0 <= j < |items| ensures items[j].name.Some? && !Blank(items[j].name.value) {
      assert list[j] in c.subcategories;
      var m :| 0 <= m < |c.subcategories| && c.subcategories[m] == list[j];
      assert StoredSubcategory(c.subcategories[m]);
    }
    assert NamesSent(items);
    var validated := ValidateUpdate(body, next);
    assert validated.0.Ok?;
    PutSucceedsIff(store, body, next);
  }

  /** The delete the page sends for a category of a valid collection it mirrors is
      applied, and removes exactly that category. */
  lemma PageRemoveCategorySucceeds(store: seq<Category>, k: nat)
    requires StoreValid(store) && k < |store|
    ensures var r := Delete(store, DeleteBody(Some(store[k].id)));
      r.0 == Deleted(store[k]) && r.1 == WithoutId(store, store[k].id)
  {
    DeleteRemovesExactlyOne(store, store[k].id);
    IndexOfIdUnique(store, store[k].id, k);
  }

  // ---------------------------------------------------------------------------
  // The component state
  // ---------------------------------------------------------------------------

  /** The `useState` fields of `CategoryManagement`. */
  class CategoryManagement {
    var hasUnsavedChanges: bool
    var editingCategoryId: Option<Id>
    var editingCategoryName: string
    var newCategoryName: string
    var newSubcategoryNames: map<Id, string>

    constructor ()
      ensures !hasUnsavedChanges && editingCategoryId == None && editingCategoryName == ""
      ensures newCategoryName == "" && newSubcategoryNames == map[]
    {
      hasUnsavedChanges := false;
      editingCategoryId := None;
      editingCategoryName := "";
      newCategoryName := "";
      newSubcategoryNames := map[];
    }

    /** `addCategory`, against the cached list `categories`. */
    method AddCategory(categories: seq<Category>) returns (sent: Option<Request>)
      modifies this
      ensures sent == AddCategoryDecision(categories, old(newCategoryName))
      ensures newCategoryName == (if sent.Some? then "" else old(newCategoryName))
      ensures hasUnsavedChanges == (old(hasUnsavedChanges) || sent.Some?)
      ensures editingCategoryId == old(editingCategoryId) && editingCategoryName == old(editingCategoryName)
      ensures newSubcategoryNames == old(newSubcategoryNames)
    {
      var input := newCategoryName;
      sent := AddCategoryDecision(categories, input);
      if sent.Some? {
        newCategoryName := "";
        hasUnsavedChanges := true;
      }
    }

    /** `addSubcategory(categoryId)`; `newId` stands for the `uuidv4()` the handler draws. */
    method AddSubcategory(categories: seq<Category>, categoryId: Id, newId: Id) returns (sent: Option<Request>)
      modifies this
      ensures sent == AddSubcategoryDecision(categories, old(newSubcategoryNames), categoryId, newId)
      ensures newSubcategoryNames == (if sent.Some? then old(newSubcategoryNames)[categoryId := ""] else old(newSubcategoryNames))
      ensures hasUnsavedChanges == (old(hasUnsavedChanges) || sent.Some?)
      ensures editingCategoryId == old(editingCategoryId) && editingCategoryName == old(editingCategoryName)
      ensures newCategoryName == old(newCategoryName)
    {
      sent := AddSubcategoryDecision(categories, newSubcategoryNames, categoryId, newId);
      if sent.Some? {
        newSubcategoryNames := newSubcategoryNames[categoryId := ""];
        hasUnsavedChanges := true;
      }
    }

    /** `removeCategory(categoryId)`: always sends the delete. */
    method RemoveCategory(categoryId: Id) returns (sent: Option<Request>)
      modifies this
      ensures sent == Some(DeleteRequest(categoryId))
      ensures hasUnsavedChanges
      ensures editingCategoryId == old(editingCategoryId) && editingCategoryName == old(editingCategoryName)
      ensures newCategoryName == old(newCategoryName) && newSubcategoryNames == old(newSubcategoryNames)
    {
      sent := Some(DeleteRequest(categoryId));
      hasUnsavedChanges := true;
    }

    /** `removeSubcategory(categoryId, subcategoryId)`. */
    method RemoveSubcategory(categories: seq<Category>, categoryId: Id, subcategoryId: Id) returns (sent: Option<Request>)
      modifies this
      ensures sent == RemoveSubcategoryDecision(categories, categoryId, subcategoryId)
      ensures hasUnsavedChanges == (old(hasUnsavedChanges) || sent.Some?)
      ensures editingCategoryId == old(editingCategoryId) && editingCategoryName == old(editingCategoryName)
      ensures newCategoryName == old(newCategoryName) && newSubcategoryNames == old(newSubcategoryNames)
    {
      sent := RemoveSubcategoryDecision(categories, categoryId, subcategoryId);
      if sent.Some? {
        hasUnsavedChanges := true;
      }
    }

    /** `startEditingCategory(category)`. */
    method StartEditingCategory(category: Category)
      modifies this
      ensures editingCategoryId == Some(category.id) && editingCategoryName == category.name
      ensures hasUnsavedChanges == old(hasUnsavedChanges)
      ensures newCategoryName == old(newCategoryName) && newSubcategoryNames == old(newSubcategoryNames)
    {
      editingCategoryId := Some(category.id);
      editingCategoryName := category.name;
    }

    /** `updateCategoryName`: the edit fields are reset whenever the handler gets past
      its first check, whether or not it sends the rename. */
    method UpdateCategoryName(categories: seq<Category>) returns (sent: Option<Request>)
      modifies this
      ensures var d := RenameDecision(categories, old(editingCategoryId), old(editingCategoryName));
        && sent == (if d.Send? then Some(d.request) else None)
        && (d.Ignore? ==> editingCategoryId == old(editingCategoryId) && editingCategoryName == old(editingCategoryName))
        && (!d.Ignore? ==> editingCategoryId == None && editingCategoryName == "")
      ensures hasUnsavedChanges == (old(hasUnsavedChanges) || sent.Some?)
      ensures newCategoryName == old(newCategoryName) && newSubcategoryNames == old(newSubcategoryNames)
    {
      var d := RenameDecision(categories, editingCategoryId, editingCategoryName);
      if d.Ignore? {
        return None;
      }
      editingCategoryId := None;
      editingCategoryName := "";
      if d.Collision? {
        return None;
      }
      sent := Some(d.request);
      hasUnsavedChanges := true;
    }
  }
}
