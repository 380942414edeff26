/** The client-side cache of src/store/category.slice.ts: the `categories` slice of the
    Redux store and the reducers that update it when the request thunks settle.
    `Reduce` states each transition on values; `CategoryCache` is the slice state,
    updated in place one event at a time. */
module CategorySlice {
  import opened Common
  import opened Ids
  import opened CategoryModel
  import opened CategoryImport
  import opened CategoryRoute

  /** `loading: 'idle' | 'pending' | 'succeeded' | 'failed'`. */
  datatype Loading = Idle | Pending | Succeeded | Failed

  /** `CategoryState`. */
  datatype CacheState = CacheState(categories: seq<Category>, loading: Loading, error: Option<string>)

  /** `initialState`. */
  const InitialState := CacheState([], Idle, None)

  /** The actions the slice receives: `resetError` and the lifecycle actions of the five
      thunks; a rejection carries the message passed to `rejectWithValue`. */
  datatype Event =
    | ResetError
    | FetchPending | FetchFulfilled(list: seq<Category>) | FetchRejected(message: string)
    | CreatePending | CreateFulfilled(created: Category) | CreateRejected(message: string)
    | UpdatePending | UpdateFulfilled(updated: Category) | UpdateRejected(message: string)
    | DeletePending | DeleteFulfilled(deletedId: Id) | DeleteRejected(message: string)
    | ImportPending | ImportFulfilled(batch: seq<Category>) | ImportRejected(message: string)

  predicate IsRejection(e: Event) {
    e.FetchRejected? || e.CreateRejected? || e.UpdateRejected? || e.DeleteRejected? || e.ImportRejected?
  }

  /** `state.categories[findIndex(cat => cat.id === updated.id)] = updated` when an index is found. */
  function ReplaceFirst(cats: seq<Category>, updated: Category): (r: seq<Category>)
    ensures |r| == |cats|
    ensures forall k :: 0 <= k < |cats| ==> r[k].id == cats[k].id
    ensures forall k :: 0 <= k < |cats| && r[k] != cats[k] ==>
      r[k] == updated && forall j :: 0 <= j < k ==> cats[j].id != updated.id
    ensures (exists k :: 0 <= k < |cats| && cats[k].id == updated.id) ==> updated in r
    ensures (forall k :: 0 <= k < |cats| ==> cats[k].id != updated.id) ==> r == cats
  {
    match IndexOfId(cats, updated.id)
    case None => cats
    case Some(i) => cats[i := updated]
  }

  /** The slice reducer: the state after one action. */
  function Reduce(s: CacheState, e: Event): (r: CacheState)
    ensures !(e.FetchPending? || e.FetchFulfilled? || e.FetchRejected?) ==> r.loading == s.loading
    ensures !(e.ResetError? || IsRejection(e)) ==> r.error == s.error
  {
    match e
    case ResetError => s.(error := None)
    case FetchPending => s.(loading := Pending)
    case FetchFulfilled(list) => s.(loading := Succeeded, categories := list)
    case FetchRejected(message) => s.(loading := Failed, error := Some(message))
    case CreatePending => s
    case CreateFulfilled(created) => s.(categories := s.categories + [created])
    case CreateRejected(message) => s.(error := Some(message))
    case UpdatePending => s
    case UpdateFulfilled(updated) => s.(categories := ReplaceFirst(s.categories, updated))
    case UpdateRejected(message) => s.(error := Some(message))
    case DeletePending => s
    case DeleteFulfilled(id) => s.(categories := WithoutId(s.categories, id))
    case DeleteRejected(message) => s.(error := Some(message))
    case ImportPending => s
    case ImportFulfilled(batch) => s.(categories := s.categories + batch)
    case ImportRejected(message) => s.(error := Some(message))
  }

  /** Fetch: pending marks the cache loading; fulfilled replaces the list verbatim and
      marks success; rejected marks failure and records the message. */
  lemma FetchTransitions(s: CacheState, list: seq<Category>, message: string)
    ensures Reduce(s, FetchPending) == CacheState(s.categories, Pending, s.error)
    ensures Reduce(s, FetchFulfilled(list)) == CacheState(list, Succeeded, s.error)
    ensures Reduce(s, FetchRejected(message)) == CacheState(s.categories, Failed, Some(message))
  {
  }

  /** A rejected create, update, delete or import records its message and changes
      nothing else; `resetError` clears the message and changes nothing else. */
  lemma RejectionsSetOnlyError(s: CacheState, e: Event)
    requires IsRejection(e) && !e.FetchRejected?
    ensures Reduce(s, e) == CacheState(s.categories, s.loading, Some(e.message))
    ensures Reduce(s, ResetError) == CacheState(s.categories, s.loading, None)
  {
  }

  /** The slice has no case for the pending actions of create, update, delete and import. */
  lemma PendingMutationsIgnored(s: CacheState, e: Event)
    requires e.CreatePending? || e.UpdatePending? || e.DeletePending? || e.ImportPending?
    ensures Reduce(s, e) == s
  {
  }

  /** A fulfilled create appends the record: the list grows by one and its prefix is the old list. */
  lemma CreateAppends(s: CacheState, c: Category)
    ensures var r := Reduce(s, CreateFulfilled(c)).categories;
      |r| == |s.categories| + 1 && r[..|s.categories|] == s.categories && r[|s.categories|] == c
  {
    var r := Reduce(s, CreateFulfilled(c)).categories;
    assert r[..|s.categories|] == s.categories;
  }

  /** A fulfilled delete leaves no entry with that identifier, keeps every other entry,
      and keeps the relative order of what it keeps. */
  lemma DeleteFilters(s: CacheState, id: Id, a: seq<Category>, b: seq<Category>)
    requires s.categories == a + b
    ensures var r := Reduce(s, DeleteFulfilled(id)).categories;
      && (forall c :: c in r <==> c in s.categories && c.id != id)
      && r == WithoutId(a, id) + WithoutId(b, id)
  {
    var r := WithoutId(s.categories, id);
    assert Reduce(s, DeleteFulfilled(id)).categories == r;
    forall c ensures c in r <==> c in s.categories && c.id != id {
      WithoutIdMembers(s.categories, id, c);
    }
    WithoutIdKeepsOrder(a, b, id);
  }

  /** A fulfilled import yields the old list followed by the batch. */
  lemma ImportConcatenates(s: CacheState, batch: seq<Category>)
    ensures var r := Reduce(s, ImportFulfilled(batch)).categories;
      |r| == |s.categories| + |batch| && r[..|s.categories|] == s.categories && r[|s.categories|..] == batch
  {
    var r := Reduce(s, ImportFulfilled(batch)).categories;
    assert r[..|s.categories|] == s.categories && r[|s.categories|..] == batch;
  }

  // ---------------------------------------------------------------------------
  // The cache follows the collection: a cache that holds the collection's list
  // holds it again after a request succeeds and its fulfilled action is reduced.
  // ---------------------------------------------------------------------------

  lemma CacheFollowsCreate(s: CacheState, store: seq<Category>, body: CreateBody, next: nat)
    requires s.categories == store
    requires PostJson(store, body, next).response.Created?
    ensures Reduce(s, CreateFulfilled(PostJson(store, body, next).response.category)).categories
      == PostJson(store, body, next).store
  {
    var o := PostJson(store, body, next);
    assert o.store == store + [o.response.category];
    assert Reduce(s, CreateFulfilled(o.response.category)).categories == s.categories + [o.response.category];
  }

  lemma CacheFollowsImport(s: CacheState, store: seq<Category>, rows: seq<Row>, next: nat)
    requires s.categories == store
    requires PostImport(store, Some(rows), next).response.CreatedBatch?
    ensures Reduce(s, ImportFulfilled(PostImport(store, Some(rows), next).response.categories)).categories
      == PostImport(store, Some(rows), next).store
  {
    var o := PostImport(store, Some(rows), next);
    var batch := o.response.categories;
    assert o.store == store + batch;
    assert Reduce(s, ImportFulfilled(batch)).categories == s.categories + batch;
  }

  lemma CacheFollowsUpdate(s: CacheState, store: seq<Category>, body: UpdateBody, next: nat)
    requires s.categories == store
    requires Put(store, body, next).response.Updated?
    ensures Reduce(s, UpdateFulfilled(Put(store, body, next).response.category)).categories
      == Put(store, body, next).store
  {
    PutUpdates(store, body, next);
  }

  lemma CacheFollowsDelete(s: CacheState, store: seq<Category>, id: Id)
    requires s.categories == store && StoreValid(store)
    requires Delete(store, DeleteBody(Some(id))).0.Deleted?
    ensures Reduce(s, DeleteFulfilled(id)).categories == Delete(store, DeleteBody(Some(id))).1
  {
    DeleteRemovesExactlyOne(store, id);
  }

  /** The slice state, updated in place by the reducer cases. */
  class CategoryCache {
    var categories: seq<Category>
    var loading: Loading
    var error: Option<string>

    function State(): CacheState
      reads this
    {
      CacheState(categories, loading, error)
    }

    constructor ()
      ensures State() == InitialState
    {
      categories := [];
      loading := Idle;
      error := None;
    }

    method ResetError()
      modifies this
      ensures State() == Reduce(old(State()), Event.ResetError)
    {
      error := None;
    }

    method FetchPending()
      modifies this
      ensures State() == Reduce(old(State()), Event.FetchPending)
    {
      loading := Pending;
    }

    method FetchFulfilled(list: seq<Category>)
      modifies this
      ensures State() == Reduce(old(State()), Event.FetchFulfilled(list))
    {
      loading := Succeeded;
      categories := list;
    }

    method FetchRejected(message: string)
      modifies this
      ensures State() == Reduce(old(State()), Event.FetchRejected(message))
    {
      loading := Failed;
      error := Some(message);
    }

    method CreateFulfilled(created: Category)
      modifies this
      ensures State() == Reduce(old(State()), Event.CreateFulfilled(created))
    {
      categories := categories + [created];
    }

    method CreateRejected(message: string)
      modifies this
      ensures State() == Reduce(old(State()), Event.CreateRejected(message))
    {
      error := Some(message);
    }

    method UpdateFulfilled(updated: Category)
      modifies this
      ensures State() == Reduce(old(State()), Event.UpdateFulfilled(updated))
    {
      var index := IndexOfId(categories, updated.id);
      if index.Some? {
        categories := categories[index.value := updated];
      }
    }

    method UpdateRejected(message: string)
      modifies this
      ensures State() == Reduce(old(State()), Event.UpdateRejected(message))
    {
      error := Some(message);
    }

    method DeleteFulfilled(id: Id)
      modifies this
      ensures State() == Reduce(old(State()), Event.DeleteFulfilled(id))
    {
      categories := WithoutId(categories, id);
    }

    method DeleteRejected(message: string)
      modifies this
      ensures State() == Reduce(old(State()), Event.DeleteRejected(message))
    {
      error := Some(message);
    }

    method ImportFulfilled(batch: seq<Category>)
      modifies this
      ensures State() == Reduce(old(State()), Event.ImportFulfilled(batch))
    {
      categories := categories + batch;
    }

    method ImportRejected(message: string)
      modifies this
      ensures State() == Reduce(old(State()), Event.ImportRejected(message))
    {
      error := Some(message);
    }
  }
}
