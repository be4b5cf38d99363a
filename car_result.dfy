/** The offer record: an immutable value with five fields, of which four make up its identity. */
module Cars {
  import opened Text

  /** The two fuel policies an offer can carry. */
  datatype FuelPolicy = FullFull | FullEmpty

  /** A car-rental offer. The fields are in the order the constructor takes them;
      being a datatype value, an offer never changes once built. */
  datatype CarResult = CarResult(
    description: JString,
    supplierName: JString,
    sippCode: JString,
    rentalCost: real,
    fuelPolicy: FuelPolicy)

  /** The enum constant's name, as string concatenation prints it. */
  function FuelPolicyName(f: FuelPolicy): string {
    match f
    case FullFull => "FULLFULL"
    case FullEmpty => "FULLEMPTY"
  }

  /** equals(): supplierName, description, sippCode and fuelPolicy agree; rentalCost is ignored. */
  predicate SameIdentity(a: CarResult, b: CarResult) {
    a.supplierName == b.supplierName && a.description == b.description &&
    a.sippCode == b.sippCode && a.fuelPolicy == b.fuelPolicy
  }

  /** Two offers are equal exactly when they coincide once the cost of one is copied into the other. */
  lemma SameIdentityIgnoresCost(a: CarResult, b: CarResult)
    ensures SameIdentity(a, b) <==> a.(rentalCost := b.rentalCost) == b
  {
  }

  /** equals() is an equivalence relation. */
  lemma SameIdentityEquivalence(a: CarResult, b: CarResult, c: CarResult)
    ensures SameIdentity(a, a)
    ensures SameIdentity(a, b) ==> SameIdentity(b, a)
    ensures SameIdentity(a, b) && SameIdentity(b, c) ==> SameIdentity(a, c)
  {
  }

  lemma FuelPolicyNameInjective(f: FuelPolicy, g: FuelPolicy)
    ensures FuelPolicyName(f) == FuelPolicyName(g) <==> f == g
  {
    if f != g {
      assert FuelPolicyName(FullFull)[5] != FuelPolicyName(FullEmpty)[5];
    }
  }
}
