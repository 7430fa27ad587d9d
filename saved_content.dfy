/** The saved-content store behind `useSavedContent`: an ordered list of saved
    practice questions and analysed essays, each carrying an `id`. Items are
    appended, removed by id, and looked up by id. */
module SavedStore {

  /** `SavedContent = GeneratedQuestion | AnalyzedEssay`. Only the plain fields
      are kept; the generated question body and the essay feedback are opaque
      strings here. */
  datatype SavedContent =
    | GeneratedQuestion(id: string, questionType: string, topic: string, createdAt: string, body: string)
    | AnalyzedEssay(id: string, essay: string, topic: string, createdAt: string, feedback: string)

  /** `items.some(item => item.id === id)`. */
  function HasId(items: seq<SavedContent>, id: string): (b: bool)
    ensures b <==> exists i :: 0 <= i < |items| && items[i].id == id
  {
    if items == [] then false
    else if items[0].id == id then true
    else
      var b := HasId(items[1..], id);
      assert forall i :: 1 <= i < |items| ==> items[i] == items[1..][i - 1];
      b
  }

  /** `items.filter(item => item.id !== id)`. */
  function Without(items: seq<SavedContent>, id: string): (r: seq<SavedContent>)
    ensures |r| <= |items|
    ensures forall x :: x in r <==> x in items && x.id != id
  {
    if items == [] then []
    else if items[0].id != id then [items[0]] + Without(items[1..], id)
    else Without(items[1..], id)
  }

  /** Filtering distributes over concatenation, so the kept items stay in
      their original relative order. */
  lemma {:induction false} WithoutAppend(a: seq<SavedContent>, b: seq<SavedContent>, id: string)
    ensures Without(a + b, id) == Without(a, id) + Without(b, id)
  {
    if a != [] {
      assert (a + b)[1..] == a[1..] + b;
      WithoutAppend(a[1..], b, id);
    } else {
      assert a + b == b;
    }
  }

  /** Afterwards no item carries the removed id. */
  lemma WithoutRemovesId(items: seq<SavedContent>, id: string)
    ensures !HasId(Without(items, id), id)
  {
  }

  /** Removing an absent id leaves the list as it was, element for element. */
  lemma {:induction false} WithoutAbsent(items: seq<SavedContent>, id: string)
    requires !HasId(items, id)
    ensures Without(items, id) == items
  {
    if items != [] {
      assert items == [items[0]] + items[1..];
      WithoutAbsent(items[1..], id);
    }
  }

  /** Removing twice is removing once. */
  lemma WithoutIdempotent(items: seq<SavedContent>, id: string)
    ensures Without(Without(items, id), id) == Without(items, id)
  {
    WithoutRemovesId(items, id);
    WithoutAbsent(Without(items, id), id);
  }

  /** The list shrinks by exactly the number of items carrying the id. */
  function CountId(items: seq<SavedContent>, id: string): nat
  {
    if items == [] then 0 else (if items[0].id == id then 1 else 0) + CountId(items[1..], id)
  }

  /** Appending one item adds one to its id's count and nothing to any other. */
  lemma {:induction false} CountIdAppend(items: seq<SavedContent>, item: SavedContent, id: string)
    ensures CountId(items + [item], id) == CountId(items, id) + (if item.id == id then 1 else 0)
  {
    if items == [] {
      assert items + [item] == [item];
    } else {
      assert (items + [item])[1..] == items[1..] + [item];
      CountIdAppend(items[1..], item, id);
    }
  }

  lemma {:induction false} WithoutLength(items: seq<SavedContent>, id: string)
    ensures |Without(items, id)| == |items| - CountId(items, id)
    ensures HasId(items, id) ==> |Without(items, id)| < |items|
  {
    if items != [] {
      WithoutLength(items[1..], id);
      assert HasId(items, id) && items[0].id != id ==> HasId(items[1..], id);
    }
  }

  /** Removal of two ids commutes. */
  lemma {:induction false} WithoutCommutes(items: seq<SavedContent>, a: string, b: string)
    ensures Without(Without(items, a), b) == Without(Without(items, b), a)
  {
    if items != [] {
      WithoutCommutes(items[1..], a, b);
    }
  }

  /** Saving and then un-saving an id leaves exactly what un-saving alone leaves. */
  lemma AddThenRemove(items: seq<SavedContent>, item: SavedContent)
    ensures Without(items + [item], item.id) == Without(items, item.id)
  {
    WithoutAppend(items, [item], item.id);
  }

  /** The React context value: the `savedItems` state cell and its three callbacks. */
  class SavedContentProvider {
    var savedItems: seq<SavedContent>

    /** `useState<SavedContent[]>([])`. */
    constructor ()
      ensures savedItems == []
    {
      savedItems := [];
    }

    /** `addSavedItem`: append at the end, without de-duplicating. */
    method AddSavedItem(item: SavedContent)
      modifies this
      ensures savedItems == old(savedItems) + [item]
      ensures |savedItems| == |old(savedItems)| + 1
      ensures savedItems[..|old(savedItems)|] == old(savedItems)
      ensures HasId(savedItems, item.id)
      ensures CountId(savedItems, item.id) == CountId(old(savedItems), item.id) + 1
    {
      CountIdAppend(savedItems, item, item.id);
      savedItems := savedItems + [item];
      assert savedItems[|savedItems| - 1].id == item.id;
    }

    /** `removeSavedItem`: drop every item with this id, keep the rest in order. */
    method RemoveSavedItem(id: string)
      modifies this
      ensures savedItems == Without(old(savedItems), id)
      ensures !HasId(savedItems, id)
      ensures forall x :: x in old(savedItems) && x.id != id ==> x in savedItems
      ensures !HasId(old(savedItems), id) ==> savedItems == old(savedItems)
    {
      WithoutRemovesId(savedItems, id);
      if !HasId(savedItems, id) {
        WithoutAbsent(savedItems, id);
      }
      savedItems := Without(savedItems, id);
    }

    /** `isSaved`: some item carries this id; nothing changes. */
    method IsSaved(id: string) returns (b: bool)
      ensures b <==> exists i :: 0 <= i < |savedItems| && savedItems[i].id == id
    {
      b := HasId(savedItems, id);
    }
  }

  /** A client: adding the same item twice keeps both copies, and one removal
      by id drops them both. */
  method BookmarkScenario(q: SavedContent)
  {
    var store := new SavedContentProvider();
    store.AddSavedItem(q);
    store.AddSavedItem(q);
    assert store.savedItems == [q, q];
    var saved := store.IsSaved(q.id);
    assert saved;
    store.RemoveSavedItem(q.id);
    assert store.savedItems == [];
  }
}
