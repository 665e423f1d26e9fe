/**
 * The `Sweet` document schema: four required fields, `name` unique, the two
 * strings trimmed, the two numbers bounded below by 0.
 */
module SweetSchema {
  import opened Outcomes
  import opened Text

  /** Store-assigned identifier (`_id`); never reused. */
  type Id = nat

  /** A stored sweet. The price is exact (no floating point). */
  datatype Sweet = Sweet(name: string, category: string, price: real, quantity: int)

  /** The fields a request supplies, each possibly absent, before casting and validation. */
  datatype Draft = Draft(
    name: Option<string>,
    category: Option<string>,
    price: Option<real>,
    quantity: Option<int>)

  /** Every per-document constraint of the schema holds. */
  predicate Valid(s: Sweet) {
    && s.name != [] && IsTrimmed(s.name)
    && s.category != [] && IsTrimmed(s.category)
    && s.price >= 0.0
    && s.quantity >= 0
  }

  /** The `unique` index on `name`: no two stored sweets share a name. */
  predicate NamesUnique(items: map<Id, Sweet>) {
    forall a, b :: a in items && b in items && items[a].name == items[b].name ==> a == b
  }

  /** What the collection guarantees: every document valid, names unique. */
  predicate StoreValid(items: map<Id, Sweet>) {
    && (forall id :: id in items ==> Valid(items[id]))
    && NamesUnique(items)
  }

  /** A string field after the `trim` setter; an absent field stays absent. */
  function TrimField(f: Option<string>): Option<string> {
    match f
    case None => None
    case Some(v) => Some(Trim(v))
  }

  /**
   * Casting and validating a draft document: the `trim` setters run first, then
   * the `required` validators (absent, or the empty string) and the `min: 0` validators.
   */
  function Validate(d: Draft): (r: Option<Sweet>)
    ensures r.Some? <==>
      && d.name.Some? && Trim(d.name.value) != []
      && d.category.Some? && Trim(d.category.value) != []
      && d.price.Some? && d.price.value >= 0.0
      && d.quantity.Some? && d.quantity.value >= 0
    ensures r.Some? ==>
      && Valid(r.value)
      && r.value.name == Trim(d.name.value)
      && r.value.category == Trim(d.category.value)
      && r.value.price == d.price.value
      && r.value.quantity == d.quantity.value
  {
    var name := TrimField(d.name);
    var category := TrimField(d.category);
    if name.None? || name.value == [] then None
    else if category.None? || category.value == [] then None
    else if d.price.None? || d.price.value < 0.0 then None
    else if d.quantity.None? || d.quantity.value < 0 then None
    else
      TrimIsTrimmed(d.name.value);
      TrimIsTrimmed(d.category.value);
      Some(Sweet(name.value, category.value, d.price.value, d.quantity.value))
  }

  /** The draft that carries every field of a stored document. */
  function DraftOf(s: Sweet): Draft {
    Draft(Some(s.name), Some(s.category), Some(s.price), Some(s.quantity))
  }

  /** Re-validating a valid document gives it back unchanged: stored values are already trimmed. */
  lemma ValidateValid(s: Sweet)
    requires Valid(s)
    ensures Validate(DraftOf(s)) == Some(s)
  {
    TrimmedFixed(s.name);
    TrimmedFixed(s.category);
  }

  /** A document passes validation exactly when it is valid, so nothing invalid is ever persisted. */
  lemma ValidateAcceptsExactlyValid(s: Sweet)
    ensures Validate(DraftOf(s)) == Some(s) <==> Valid(s)
  {
    if Valid(s) {
      ValidateValid(s);
    }
  }
}
