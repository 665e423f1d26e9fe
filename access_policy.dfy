/**
 * The sweets router: each route runs a chain of middleware in front of its
 * controller. `authMiddleware` rejects a request without a valid bearer token
 * (401); `admin` rejects a principal whose role is not admin (403).
 */
module AccessPolicy {
  import opened Outcomes

  /** The role carried by a validated token. */
  datatype Role = User | Admin

  /** The identity a valid bearer token yields; a missing or invalid token yields none. */
  datatype Principal = Principal(id: nat, role: Role)

  /** The seven routes, named after their controllers. */
  datatype Op = Create | List | Search | Update | Delete | Purchase | Restock

  datatype Middleware = Authenticate | RequireAdmin

  /** What the gates make of a request: let it through, 401, or 403. */
  datatype Decision = Allow | Unauthorized | Forbidden

  /** The router table: the middleware chain mounted in front of each controller. */
  function RouteChain(op: Op): (chain: seq<Middleware>)
    ensures chain != [] && chain[0] == Authenticate
    ensures RequireAdmin in chain <==> op == Delete || op == Restock
  {
    match op
    case Create => [Authenticate]
    case List => [Authenticate]
    case Search => [Authenticate]
    case Update => [Authenticate]
    case Delete => [Authenticate, RequireAdmin]
    case Purchase => [Authenticate]
    case Restock => [Authenticate, RequireAdmin]
  }

  /** One middleware's verdict on the principal the request carries. */
  function RunGate(m: Middleware, p: Option<Principal>): (d: Decision)
    ensures d == Allow <==> p.Some? && (m == RequireAdmin ==> p.value.role == Admin)
    ensures d == Unauthorized <==> m == Authenticate && p.None?
  {
    match m
    case Authenticate => if p.None? then Unauthorized else Allow
    case RequireAdmin => if p.Some? && p.value.role == Admin then Allow else Forbidden
  }

  /** Runs the chain in order; the first gate that rejects answers the request. */
  function RunChain(chain: seq<Middleware>, p: Option<Principal>): (d: Decision)
    ensures d == Allow <==> forall i :: 0 <= i < |chain| ==> RunGate(chain[i], p) == Allow
    ensures d != Allow ==>
      exists i :: 0 <= i < |chain| && d == RunGate(chain[i], p)
                  && (forall j :: 0 <= j < i ==> RunGate(chain[j], p) == Allow)
  {
    if chain == [] then Allow
    else if RunGate(chain[0], p) != Allow then RunGate(chain[0], p)
    else RunChain(chain[1..], p)
  }

  /** The capability each operation requires. */
  datatype Capability = Authenticated | Administrator

  /** The access table the router realises: delete and restock are admin-only. */
  function Required(op: Op): Capability {
    if op == Delete || op == Restock then Administrator else Authenticated
  }

  /** The decision for a request to `op` carrying principal `p` (none when the token is missing or invalid). */
  function Authorize(op: Op, p: Option<Principal>): (d: Decision)
    ensures p.None? ==> d == Unauthorized
    ensures d == Forbidden ==> RequireAdmin in RouteChain(op)
  {
    RunChain(RouteChain(op), p)
  }

  /**
   * The router agrees with the access table: no credential is 401 on every route,
   * a user on an admin route is 403, and everything else is let through.
   */
  lemma {:induction false} AuthorizeMatchesTable(op: Op, p: Option<Principal>)
    ensures p.None? ==> Authorize(op, p) == Unauthorized
    ensures Authorize(op, p) == Forbidden <==> p.Some? && p.value.role == User && Required(op) == Administrator
    ensures Authorize(op, p) == Allow <==> p.Some? && (p.value.role == Admin || Required(op) == Authenticated)
  {
    var chain := RouteChain(op);
    if Required(op) == Administrator {
      assert chain == [Authenticate, RequireAdmin];
      assert chain[1..] == [RequireAdmin];
      assert RunChain(chain[1..][1..], p) == Allow;
      assert p.Some? ==> RunChain(chain, p) == RunChain([RequireAdmin], p) == RunGate(RequireAdmin, p);
    } else {
      assert chain == [Authenticate];
      assert RunChain(chain[1..], p) == Allow;
    }
  }

  /** An admin principal passes every gate; a user principal every gate except delete and restock. */
  lemma RolesAndRoutes(op: Op, id: nat)
    ensures Authorize(op, Some(Principal(id, Admin))) == Allow
    ensures Authorize(op, Some(Principal(id, User))) == Allow <==> op != Delete && op != Restock
    ensures Authorize(op, Some(Principal(id, User))) == Forbidden <==> op == Delete || op == Restock
  {
    AuthorizeMatchesTable(op, Some(Principal(id, Admin)));
    AuthorizeMatchesTable(op, Some(Principal(id, User)));
  }

  /** Authentication runs first: every chain starts with it, so a request without a credential is 401 on every route. */
  lemma AuthenticationFirst(op: Op)
    ensures |RouteChain(op)| > 0 && RouteChain(op)[0] == Authenticate
    ensures Authorize(op, None) == Unauthorized
  {
    AuthorizeMatchesTable(op, None);
  }
}
