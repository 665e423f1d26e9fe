/**
 * The `/api/sweets` routes: the middleware gates of the router table run in
 * front of the controller, and a request they reject never reaches the store.
 */
module SweetsRouter {
  import opened Outcomes
  import opened SweetSchema
  import opened SweetSearch
  import AccessPolicy
  import opened SweetsController

  /** A request to one of the seven routes, with its path parameter and body or query. */
  datatype Request =
    | AddReq(draft: Draft)                                 // POST /
    | ListReq                                              // GET /
    | SearchReq(params: SearchParams)                      // GET /search
    | UpdateReq(id: Id, patch: Draft)                      // PUT /:id
    | DeleteReq(id: Id)                                    // DELETE /:id
    | PurchaseReq(purchaseId: Id, quantity: Option<int>)   // POST /:id/purchase
    | RestockReq(restockId: Id, amount: Option<int>)       // POST /:id/restock

  /** The route a request is mounted on. */
  function OpOf(req: Request): AccessPolicy.Op {
    match req
    case AddReq(_) => AccessPolicy.Create
    case ListReq => AccessPolicy.List
    case SearchReq(_) => AccessPolicy.Search
    case UpdateReq(_, _) => AccessPolicy.Update
    case DeleteReq(_) => AccessPolicy.Delete
    case PurchaseReq(_, _) => AccessPolicy.Purchase
    case RestockReq(_, _) => AccessPolicy.Restock
  }

  /** What the client receives. */
  datatype Response =
    | Denied(decision: AccessPolicy.Decision)       // 401 or 403 from a gate
    | Record(doc: Stored)              // the created or updated document
    | Records(docs: map<Id, Sweet>)    // a listing or search result
    | Removed                          // "Sweet deleted"
    | Failed(error: Error)             // a domain error from the controller

  /**
   * What the controller does with a request the gates let through: the response it
   * gives and the collection it leaves, from the collection it found. Each case checks
   * in the controller's order, and every failure leaves the collection as it was.
   */
  ghost predicate Served(before: map<Id, Sweet>, after: map<Id, Sweet>, req: Request, resp: Response) {
    match req
    case AddReq(d) =>
      if AddClashes(before, d) then resp == Failed(DuplicateName) && after == before
      else if Validate(d).None? then resp == Failed(ValidationError) && after == before
      else
        && resp.Record? && resp.doc.sweet == Validate(d).value
        && resp.doc.id !in before && after == before[resp.doc.id := resp.doc.sweet]
    case ListReq => resp == Records(before) && after == before
    case SearchReq(ps) => resp == Records(Search(before, ps)) && after == before
    case UpdateReq(id, patch) =>
      if id !in before then resp == Failed(NotFound) && after == before
      else if RenameClashes(before, id, patch) then resp == Failed(DuplicateName) && after == before
      else if Validate(Merge(before[id], patch)).None? then resp == Failed(ValidationError) && after == before
      else
        var s := Validate(Merge(before[id], patch)).value;
        resp == Record(Stored(id, s)) && after == before[id := s]
    case DeleteReq(id) =>
      if id !in before then resp == Failed(NotFound) && after == before
      else resp == Removed && after == before - {id}
    case PurchaseReq(id, q) =>
      if !PositiveQuantity(q) then resp == Failed(InvalidQuantity) && after == before
      else if id !in before then resp == Failed(NotFound) && after == before
      else if before[id].quantity < q.value then resp == Failed(InsufficientStock) && after == before
      else
        var s := before[id].(quantity := before[id].quantity - q.value);
        resp == Record(Stored(id, s)) && after == before[id := s]
    case RestockReq(id, q) =>
      if !PositiveQuantity(q) then resp == Failed(InvalidQuantity) && after == before
      else if id !in before then resp == Failed(NotFound) && after == before
      else
        var s := before[id].(quantity := before[id].quantity + q.value);
        resp == Record(Stored(id, s)) && after == before[id := s]
  }

  /** A served request that fails leaves the collection unchanged, and only list and search answer with records. */
  lemma ServedFailureKeepsStore(before: map<Id, Sweet>, after: map<Id, Sweet>, req: Request, resp: Response)
    requires Served(before, after, req, resp)
    ensures resp.Failed? ==> after == before
    ensures !resp.Denied?
    ensures resp.Records? <==> req.ListReq? || req.SearchReq?
  {
  }

  /** A served purchase never drives stock below what it was minus the quantity, nor below 0 on a valid store. */
  lemma ServedPurchaseKeepsStock(before: map<Id, Sweet>, after: map<Id, Sweet>, id: Id, q: Option<int>, resp: Response)
    requires StoreValid(before)
    requires Served(before, after, PurchaseReq(id, q), resp)
    ensures resp.Record? <==> PositiveQuantity(q) && id in before && q.value <= before[id].quantity
    ensures id in after ==> after[id].quantity >= 0
    ensures forall other :: other in before && other != id ==> other in after && after[other] == before[other]
  {
  }

  /** Runs the route's gates, then its controller. */
  method Handle(store: SweetStore, req: Request, p: Option<AccessPolicy.Principal>) returns (resp: Response)
    requires store.Valid()
    modifies store
    ensures store.Valid()
    ensures AccessPolicy.Authorize(OpOf(req), p) != AccessPolicy.Allow ==>
      && resp == Denied(AccessPolicy.Authorize(OpOf(req), p))
      && store.items == old(store.items) && store.nextId == old(store.nextId)
    ensures AccessPolicy.Authorize(OpOf(req), p) == AccessPolicy.Allow ==>
      Served(old(store.items), store.items, req, resp)
    ensures p.None? ==> resp == Denied(AccessPolicy.Unauthorized) && store.items == old(store.items)
    ensures (p.Some? && p.value.role == AccessPolicy.User && (req.DeleteReq? || req.RestockReq?)) ==>
      resp == Denied(AccessPolicy.Forbidden) && store.items == old(store.items)
    ensures resp.Failed? ==> store.items == old(store.items)
    ensures (req.ListReq? || req.SearchReq?) ==> store.items == old(store.items)
    ensures (p.Some? && req.ListReq?) ==> resp == Records(old(store.items))
    ensures (p.Some? && req.SearchReq?) ==> resp == Records(Search(old(store.items), req.params))
  {
    var decision := AccessPolicy.Authorize(OpOf(req), p);
    AccessPolicy.AuthorizeMatchesTable(OpOf(req), p);
    if decision != AccessPolicy.Allow {
      return Denied(decision);
    }
    match req {
      case AddReq(d) =>
        var r := store.AddSweet(d);
        resp := if r.Ok? then Record(r.value) else Failed(r.error);
      case ListReq =>
        var all := store.GetSweets();
        resp := Records(all);
      case SearchReq(ps) =>
        var found := store.SearchSweets(ps);
        resp := Records(found);
      case UpdateReq(id, patch) =>
        var r := store.UpdateSweet(id, patch);
        resp := if r.Ok? then Record(r.value) else Failed(r.error);
      case DeleteReq(id) =>
        var r := store.DeleteSweet(id);
        resp := if r.Ok? then Removed else Failed(r.error);
      case PurchaseReq(id, q) =>
        var r := store.PurchaseSweet(id, q);
        resp := if r.Ok? then Record(r.value) else Failed(r.error);
      case RestockReq(id, q) =>
        var r := store.RestockSweet(id, q);
        resp := if r.Ok? then Record(r.value) else Failed(r.error);
    }
  }

  /** Deleting the same id twice: the second call finds nothing. */
  method DeleteTwice(store: SweetStore, id: Id) returns (first: Result<Sweet>, second: Result<Sweet>)
    requires store.Valid()
    modifies store
    ensures first.Ok? <==> id in old(store.items)
    ensures second == Err(NotFound)
    ensures store.items == old(store.items) - {id}
  {
    first := store.DeleteSweet(id);
    second := store.DeleteSweet(id);
  }

  /** A successful purchase followed by a restock of the same amount restores the collection. */
  method PurchaseThenRestock(store: SweetStore, id: Id, q: int) returns (bought: Result<Stored>, restocked: Result<Stored>)
    requires store.Valid()
    modifies store
    ensures bought.Ok? <==> id in old(store.items) && 0 < q <= old(store.items)[id].quantity
    ensures bought.Ok? ==> restocked.Ok? && store.items == old(store.items)
    ensures bought.Err? ==> store.items == old(store.items)
  {
    ghost var before := store.items;
    bought := store.PurchaseSweet(id, Some(q));
    restocked := Err(InvalidQuantity);
    if bought.Ok? {
      restocked := store.RestockSweet(id, Some(q));
      assert before[id].(quantity := before[id].quantity - q + q) == before[id];
      assert store.items == before[id := before[id]];
      assert before[id := before[id]] == before;
    }
  }

  /**
   * Create "Ladoo" with 10 in stock; buying 12 is refused and leaves 10; buying 10
   * leaves 0; restocking 5 leaves 5.
   */
  method LadooScenario() returns (tooMany: Result<Stored>, all: Result<Stored>, restocked: Result<Stored>)
    ensures tooMany == Err(InsufficientStock)
    ensures all.Ok? && all.value.sweet.quantity == 0
    ensures restocked.Ok? && restocked.value.sweet.quantity == 5
  {
    var store := new SweetStore();
    var draft := Draft(Some("Ladoo"), Some("Indian"), Some(1.5), Some(10));
    Text.TrimmedFixed("Ladoo");
    Text.TrimmedFixed("Indian");
    assert Validate(draft).Some?;
    var created := store.AddSweet(draft);
    assert created.Ok?;
    var id := created.value.id;
    assert id in store.items && store.items[id].quantity == 10;
    tooMany := store.PurchaseSweet(id, Some(12));
    assert store.items[id].quantity == 10;
    all := store.PurchaseSweet(id, Some(10));
    assert id in store.items && store.items[id].quantity == 0;
    restocked := store.RestockSweet(id, Some(5));
  }
}
