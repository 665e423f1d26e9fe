/**
 * The sweets controller over one collection of documents. Each operation runs a
 * validation guard, an existence or uniqueness lookup, and then a single write;
 * a call that fails leaves the collection as it was.
 */
module SweetsController {
  import opened Outcomes
  import opened Text
  import opened SweetSchema
  import opened SweetSearch

  /** A document as the controller returns it: its id and its fields. */
  datatype Stored = Stored(id: Id, sweet: Sweet)

  /** Some stored document has exactly this name. */
  predicate NameTaken(items: map<Id, Sweet>, name: string) {
    exists id :: id in items && items[id].name == name
  }

  /**
   * `Sweet.findOne({ name })` in `addSweet` finds a document: the filter value goes
   * through the `trim` setter, and an absent name selects nothing.
   */
  predicate AddClashes(items: map<Id, Sweet>, d: Draft) {
    d.name.Some? && NameTaken(items, Trim(d.name.value))
  }

  /**
   * The rename check of `updateSweet`: it runs only for a truthy name that differs
   * from the current one, and fails when `findOne({ name })` finds any document.
   */
  predicate RenameClashes(items: map<Id, Sweet>, id: Id, patch: Draft)
    requires id in items
  {
    Given(patch.name) && patch.name.value != items[id].name && NameTaken(items, Trim(patch.name.value))
  }

  /** The document `findByIdAndUpdate` writes: supplied fields replace stored ones, absent ones are kept. */
  function Merge(cur: Sweet, patch: Draft): Draft {
    Draft(
      if patch.name.Some? then patch.name else Some(cur.name),
      if patch.category.Some? then patch.category else Some(cur.category),
      if patch.price.Some? then patch.price else Some(cur.price),
      if patch.quantity.Some? then patch.quantity else Some(cur.quantity))
  }

  /** The guard `!quantity || quantity <= 0` of purchase and restock lets the request through. */
  predicate PositiveQuantity(q: Option<int>) {
    q.Some? && q.value > 0
  }

  /** Writing `s` at `id` keeps the collection valid when `s` is valid and its name is free. */
  lemma PutKeepsStoreValid(items: map<Id, Sweet>, id: Id, s: Sweet)
    requires StoreValid(items) && Valid(s)
    requires forall other :: other in items && other != id ==> items[other].name != s.name
    ensures StoreValid(items[id := s])
  {
  }

  /** Inserting a valid document with a free name under an unused id keeps the collection valid. */
  lemma InsertKeepsStoreValid(items: map<Id, Sweet>, id: Id, s: Sweet)
    requires StoreValid(items) && Valid(s) && !NameTaken(items, s.name)
    ensures StoreValid(items[id := s])
  {
    PutKeepsStoreValid(items, id, s);
  }

  /** Adding a name that is stored exactly is a clash (stored names are trimmed already). */
  lemma ExactNameClashes(items: map<Id, Sweet>, d: Draft)
    requires StoreValid(items)
    requires d.name.Some? && NameTaken(items, d.name.value)
    ensures AddClashes(items, d)
  {
    var id :| id in items && items[id].name == d.name.value;
    TrimmedFixed(items[id].name);
  }

  /** Renaming to a name another document holds is a clash. */
  lemma RenameToOtherClashes(items: map<Id, Sweet>, id: Id, other: Id, patch: Draft)
    requires StoreValid(items) && id in items && other in items && other != id
    requires patch.name == Some(items[other].name)
    ensures RenameClashes(items, id, patch)
  {
    TrimmedFixed(items[other].name);
  }

  /** Omitting the name, or sending the current name unchanged, skips the uniqueness check. */
  lemma KeepingNameSkipsCheck(items: map<Id, Sweet>, id: Id, patch: Draft)
    requires id in items
    requires patch.name.None? || patch.name == Some(items[id].name)
    ensures !RenameClashes(items, id, patch)
  {
  }

  /**
   * The current name with a leading space differs from it, so the check runs, and
   * `findOne` (which trims the filter) finds the document itself: the update is refused.
   */
  lemma PaddedOwnNameClashes(items: map<Id, Sweet>, id: Id)
    requires StoreValid(items) && id in items
    ensures RenameClashes(items, id, Draft(Some([' '] + items[id].name), None, None, None))
  {
    var n := items[id].name;
    assert ([' '] + n)[1..] == n;
    assert TrimStart([' '] + n) == TrimStart(n) == n;
    TrimmedFixed(n);
    assert ([' '] + n) != n by {
      assert |[' '] + n| != |n|;
    }
  }

  /**
   * A successful merge carries the supplied fields (trimmed) and keeps the others,
   * and the result is a valid document.
   */
  lemma MergeFields(cur: Sweet, patch: Draft)
    requires Valid(cur)
    requires Validate(Merge(cur, patch)).Some?
    ensures var s := Validate(Merge(cur, patch)).value;
      && Valid(s)
      && s.name == (if patch.name.Some? then Trim(patch.name.value) else cur.name)
      && s.category == (if patch.category.Some? then Trim(patch.category.value) else cur.category)
      && s.price == (if patch.price.Some? then patch.price.value else cur.price)
      && s.quantity == (if patch.quantity.Some? then patch.quantity.value else cur.quantity)
  {
    TrimmedFixed(cur.name);
    TrimmedFixed(cur.category);
  }

  /** A write that passed the rename check and validation keeps names unique and documents valid. */
  lemma UpdateKeepsStoreValid(items: map<Id, Sweet>, id: Id, patch: Draft)
    requires StoreValid(items) && id in items
    requires !RenameClashes(items, id, patch)
    requires Validate(Merge(items[id], patch)).Some?
    ensures StoreValid(items[id := Validate(Merge(items[id], patch)).value])
  {
    var cur := items[id];
    var s := Validate(Merge(cur, patch)).value;
    MergeFields(cur, patch);
    forall other | other in items && other != id
      ensures items[other].name != s.name
    {
      if patch.name.None? || patch.name.value == cur.name {
        assert s.name == cur.name;
      } else {
        assert !NameTaken(items, Trim(patch.name.value));
      }
    }
    PutKeepsStoreValid(items, id, s);
  }

  /** An update that sends no field writes back the document unchanged. */
  lemma EmptyPatchKeepsDocument(cur: Sweet)
    requires Valid(cur)
    ensures Validate(Merge(cur, Draft(None, None, None, None))) == Some(cur)
  {
    ValidateValid(cur);
  }

  /** The `Sweet` collection, with the id the store will assign next. */
  class SweetStore {
    var items: map<Id, Sweet>
    var nextId: Id

    /** The schema holds for the collection, and ids are never reused. */
    ghost predicate Valid() reads this {
      StoreValid(items) && forall id :: id in items ==> id < nextId
    }

    constructor ()
      ensures Valid() && items == map[]
    {
      items := map[];
      nextId := 0;
    }

    /** `addSweet`: refuse a taken name, validate, then insert under a fresh id. */
    method AddSweet(d: Draft) returns (r: Result<Stored>)
      requires Valid()
      modifies this
      ensures Valid()
      ensures AddClashes(old(items), d) ==> r == Err(DuplicateName)
      ensures !AddClashes(old(items), d) && Validate(d).None? ==> r == Err(ValidationError)
      ensures r.Ok? <==> !AddClashes(old(items), d) && Validate(d).Some?
      ensures r.Err? ==> items == old(items) && nextId == old(nextId)
      ensures r.Ok? ==>
        && Validate(d) == Some(r.value.sweet)
        && r.value.id !in old(items)
        && items == old(items)[r.value.id := r.value.sweet]
    {
      if AddClashes(items, d) {
        return Err(DuplicateName);
      }
      var v := Validate(d);
      if v.None? {
        return Err(ValidationError);
      }
      var s := v.value;
      InsertKeepsStoreValid(items, nextId, s);
      r := Ok(Stored(nextId, s));
      items := items[nextId := s];
      nextId := nextId + 1;
    }

    /** `getSweets`: every stored document. */
    method GetSweets() returns (all: map<Id, Sweet>)
      requires Valid()
      ensures all == items
      ensures StoreValid(all)
    {
      all := items;
    }

    /** `searchSweets`: the documents the query built from `ps` selects; all of them valid. */
    method SearchSweets(ps: SearchParams) returns (found: map<Id, Sweet>)
      requires Valid()
      ensures found == Search(items, ps)
      ensures StoreValid(found)
      ensures forall id :: id in found <==> id in items && Selected(ps, items[id])
    {
      found := Search(items, ps);
      forall id
        ensures id in found <==> id in items && Selected(ps, items[id])
      {
        SearchSelects(items, ps, id);
      }
    }

    /** `updateSweet`: look the document up, check a rename, then write the validated merge. */
    method UpdateSweet(id: Id, patch: Draft) returns (r: Result<Stored>)
      requires Valid()
      modifies this
      ensures Valid() && nextId == old(nextId)
      ensures id !in old(items) ==> r == Err(NotFound)
      ensures id in old(items) && RenameClashes(old(items), id, patch) ==> r == Err(DuplicateName)
      ensures (id in old(items) && !RenameClashes(old(items), id, patch)
               && Validate(Merge(old(items)[id], patch)).None?) ==> r == Err(ValidationError)
      ensures r.Ok? <==> (id in old(items) && !RenameClashes(old(items), id, patch)
                          && Validate(Merge(old(items)[id], patch)).Some?)
      ensures r.Err? ==> items == old(items)
      ensures r.Ok? ==>
        && r.value.id == id
        && Validate(Merge(old(items)[id], patch)) == Some(r.value.sweet)
        && items == old(items)[id := r.value.sweet]
    {
      if id !in items {
        return Err(NotFound);
      }
      var cur := items[id];
      if Given(patch.name) && patch.name.value != cur.name {
        if NameTaken(items, Trim(patch.name.value)) {
          return Err(DuplicateName);
        }
      }
      var v := Validate(Merge(cur, patch));
      if v.None? {
        return Err(ValidationError);
      }
      var s := v.value;
      UpdateKeepsStoreValid(items, id, patch);
      r := Ok(Stored(id, s));
      items := items[id := s];
    }

    /** `deleteSweet`: remove the document with this id, if there is one. */
    method DeleteSweet(id: Id) returns (r: Result<Sweet>)
      requires Valid()
      modifies this
      ensures Valid() && nextId == old(nextId)
      ensures id !in old(items) ==> r == Err(NotFound) && items == old(items)
      ensures id in old(items) ==> r == Ok(old(items)[id]) && items == old(items) - {id}
    {
      if id !in items {
        return Err(NotFound);
      }
      r := Ok(items[id]);
      items := items - {id};
    }

    /** `purchaseSweet`: check the quantity, find the document, refuse an overdraw, deduct. */
    method PurchaseSweet(id: Id, quantity: Option<int>) returns (r: Result<Stored>)
      requires Valid()
      modifies this
      ensures Valid() && nextId == old(nextId)
      ensures !PositiveQuantity(quantity) ==> r == Err(InvalidQuantity)
      ensures PositiveQuantity(quantity) && id !in old(items) ==> r == Err(NotFound)
      ensures (PositiveQuantity(quantity) && id in old(items)
               && old(items)[id].quantity < quantity.value) ==> r == Err(InsufficientStock)
      ensures r.Ok? <==> (PositiveQuantity(quantity) && id in old(items)
                          && quantity.value <= old(items)[id].quantity)
      ensures r.Err? ==> items == old(items)
      ensures r.Ok? ==>
        && PositiveQuantity(quantity) && id in old(items)
        && quantity.value <= old(items)[id].quantity
        && r.value == Stored(id, old(items)[id].(quantity := old(items)[id].quantity - quantity.value))
        && items == old(items)[id := r.value.sweet]
        && r.value.sweet.quantity >= 0
    {
      if !PositiveQuantity(quantity) {
        return Err(InvalidQuantity);
      }
      if id !in items {
        return Err(NotFound);
      }
      var s := items[id];
      if s.quantity < quantity.value {
        return Err(InsufficientStock);
      }
      s := s.(quantity := s.quantity - quantity.value);
      PutKeepsStoreValid(items, id, s);
      items := items[id := s];
      r := Ok(Stored(id, s));
    }

    /** `restockSweet`: check the quantity, find the document, add to its stock. */
    method RestockSweet(id: Id, quantity: Option<int>) returns (r: Result<Stored>)
      requires Valid()
      modifies this
      ensures Valid() && nextId == old(nextId)
      ensures !PositiveQuantity(quantity) ==> r == Err(InvalidQuantity)
      ensures PositiveQuantity(quantity) && id !in old(items) ==> r == Err(NotFound)
      ensures r.Ok? <==> PositiveQuantity(quantity) && id in old(items)
      ensures r.Err? ==> items == old(items)
      ensures r.Ok? ==>
        && r.value == Stored(id, old(items)[id].(quantity := old(items)[id].quantity + quantity.value))
        && items == old(items)[id := r.value.sweet]
    {
      if !PositiveQuantity(quantity) {
        return Err(InvalidQuantity);
      }
      if id !in items {
        return Err(NotFound);
      }
      var s := items[id];
      s := s.(quantity := s.quantity + quantity.value);
      PutKeepsStoreValid(items, id, s);
      items := items[id := s];
      r := Ok(Stored(id, s));
    }
  }
}
