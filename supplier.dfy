/** The corporate-supplier allow-list. */
module Suppliers {
  import opened Wrappers
  import opened Text

  datatype Supplier = Avis | Budget | Enterprise | Firefly | Hertz | Sixt | Thrifty

  /** The constant's name, which Enum.valueOf matches exactly. */
  function Name(s: Supplier): string {
    match s
    case Avis => "AVIS"
    case Budget => "BUDGET"
    case Enterprise => "ENTERPRISE"
    case Firefly => "FIREFLY"
    case Hertz => "HERTZ"
    case Sixt => "SIXT"
    case Thrifty => "THRIFTY"
  }

  /** The `corporate` flag each constant is declared with. */
  function Corporate(s: Supplier): bool {
    match s
    case Avis => true
    case Budget => true
    case Enterprise => true
    case Firefly => true
    case Hertz => true
    case Sixt => true
    case Thrifty => true
  }

  /** Supplier.values(). */
  const Values: seq<Supplier> := [Avis, Budget, Enterprise, Firefly, Hertz, Sixt, Thrifty]

  const CorporateNames: set<string> := {"AVIS", "BUDGET", "ENTERPRISE", "FIREFLY", "HERTZ", "SIXT", "THRIFTY"}

  /** A search of vals by exact name. */
  function Lookup(vals: seq<Supplier>, name: string): (r: Option<Supplier>)
    ensures r.Some? ==> r.value in vals && Name(r.value) == name
    ensures r.None? ==> forall v :: v in vals ==> Name(v) != name
  {
    if vals == [] then None
    else if Name(vals[0]) == name then Some(vals[0])
    else Lookup(vals[1..], name)
  }

  /** Enum.valueOf: the constant with exactly this name; None stands for the
      IllegalArgumentException thrown for any other name. */
  function ValueOf(name: string): Option<Supplier> {
    Lookup(Values, name)
  }

  /** isCorporate: false for null, otherwise the corporate flag of the constant named by the
      upper-cased name, and false when there is no such constant. */
  function IsCorporate(supplierName: JString): bool {
    match supplierName
    case Null => false
    case Str(s) =>
      match ValueOf(ToUpper(s))
      case Some(supplier) => Corporate(supplier)
      case None => false
  }

  /** Every constant carries corporate = true and values() lists every constant. */
  lemma AllDeclaredCorporate(s: Supplier)
    ensures Corporate(s) && s in Values && Name(s) in CorporateNames
  {
  }

  /** valueOf finds exactly the names of the allow-list, and finds the constant of that name. */
  lemma ValueOfFindsAllowList(name: string)
    ensures ValueOf(name).Some? <==> name in CorporateNames
    ensures ValueOf(name).Some? ==> Name(ValueOf(name).value) == name
  {
    if name in CorporateNames {
      var v := if name == "AVIS" then Avis else if name == "BUDGET" then Budget
        else if name == "ENTERPRISE" then Enterprise else if name == "FIREFLY" then Firefly
        else if name == "HERTZ" then Hertz else if name == "SIXT" then Sixt else Thrifty;
      assert v in Values && Name(v) == name;
    } else if ValueOf(name).Some? {
      AllDeclaredCorporate(ValueOf(name).value);
    }
  }

  /** A non-null name is corporate exactly when its upper-case form is on the allow-list;
      a null name is never corporate. */
  lemma IsCorporateIff(supplierName: JString)
    ensures supplierName.Null? ==> !IsCorporate(supplierName)
    ensures supplierName.Str? ==> (IsCorporate(supplierName) <==> ToUpper(supplierName.chars) in CorporateNames)
  {
    if supplierName.Str? {
      ValueOfFindsAllowList(ToUpper(supplierName.chars));
      if ValueOf(ToUpper(supplierName.chars)).Some? {
        AllDeclaredCorporate(ValueOf(ToUpper(supplierName.chars)).value);
      }
    }
  }

  /** The test ignores case. */
  lemma IsCorporateCaseInsensitive(s: string)
    ensures IsCorporate(Str(ToUpper(s))) == IsCorporate(Str(s))
  {
    ToUpperIdempotent(s);
    IsCorporateIff(Str(s));
    IsCorporateIff(Str(ToUpper(s)));
  }

  /** Upper-casing a string with no lower-case letter leaves it unchanged. */
  lemma ToUpperOfUpper(s: string)
    requires forall i :: 0 <= i < |s| ==> !IsLower(s[i])
    ensures ToUpper(s) == s
  {
  }

  lemma SixtIsCorporate()
    ensures IsCorporate(Str("SIXT"))
  {
    ToUpperOfUpper("SIXT");
    IsCorporateIff(Str("SIXT"));
  }

  lemma LowerSixtIsCorporate()
    ensures IsCorporate(Str("sixt"))
  {
    var u := ToUpper("sixt");
    assert u[0] == 'S' && u[1] == 'I' && u[2] == 'X' && u[3] == 'T';
    assert u == "SIXT";
    IsCorporateCaseInsensitive("sixt");
    SixtIsCorporate();
  }

  lemma NizaIsNotCorporate()
    ensures !IsCorporate(Str("NIZA")) && !IsCorporate(Null)
  {
    ToUpperOfUpper("NIZA");
    IsCorporateIff(Str("NIZA"));
  }

  lemma AvisIsCorporate()
    ensures IsCorporate(Str("AVIS"))
  {
    ToUpperOfUpper("AVIS");
    IsCorporateIff(Str("AVIS"));
  }
}
