/**
 * The shared vocabulary of the application (src/types/location.ts): the closed
 * category enumeration, its descriptor table, the Location record and the campus
 * geometry constants.
 */
module LocationTypes {

  import opened Options

  /** The five values of the `LocationCategory` union. */
  datatype Category = Academic | Hostel | Food | Medical | Other

  /** The categories in the order the descriptor table literal lists them. */
  const Categories: seq<Category> := [Academic, Hostel, Food, Medical, Other]

  /** The string literal of each category, as stored and sent over the wire. */
  function Key(c: Category): (k: string)
    ensures k != []
  {
    match c
    case Academic => "academic"
    case Hostel => "hostel"
    case Food => "food"
    case Medical => "medical"
    case Other => "other"
  }

  /** A category's display label (`label`, a Dafny keyword, so `caption` here), marker glyph and colour token. */
  datatype Descriptor = Descriptor(caption: string, icon: string, color: string)

  /** `CATEGORY_CONFIG`, a table keyed by the enumeration. */
  const CategoryConfig: map<Category, Descriptor> := map[
    Academic := Descriptor("Academic", "\U{1F3EB}", "academic"),
    Hostel := Descriptor("Hostel", "\U{1F3E0}", "hostel"),
    Food := Descriptor("Food", "\U{1F37D}\U{FE0F}", "food"),
    Medical := Descriptor("Medical", "\U{1F3E5}", "medical"),
    Other := Descriptor("Other", "\U{1F31F}", "other")
  ]

  /** `CATEGORY_CONFIG[c]`: the lookup the components perform. */
  function Config(c: Category): Descriptor {
    match c
    case Academic => CategoryConfig[Academic]
    case Hostel => CategoryConfig[Hostel]
    case Food => CategoryConfig[Food]
    case Medical => CategoryConfig[Medical]
    case Other => CategoryConfig[Other]
  }

  /** The enumeration has exactly five values, listed once each. */
  lemma CategoriesEnumerated()
    ensures |Categories| == 5
    ensures forall c: Category :: c in Categories
    ensures forall i, j :: 0 <= i < j < |Categories| ==> Categories[i] != Categories[j]
  {
    forall c: Category ensures c in Categories {
      assert Categories[Position(c)] == c;
    }
  }

  /** Where a category stands in the table's order. */
  function Position(c: Category): (i: nat)
    ensures i < |Categories| && Categories[i] == c
  {
    match c
    case Academic => 0
    case Hostel => 1
    case Food => 2
    case Medical => 3
    case Other => 4
  }

  /** The wire strings tell the categories apart. */
  lemma KeyInjective(c: Category, d: Category)
    requires Key(c) == Key(d)
    ensures c == d
  {
  }

  /** The descriptor table and the enumeration are in lockstep: no missing and no extra key. */
  lemma ConfigTotal()
    ensures forall c: Category :: c in CategoryConfig && CategoryConfig[c] == Config(c)
    ensures CategoryConfig.Keys == {Academic, Hostel, Food, Medical, Other}
    ensures |CategoryConfig| == |Categories|
  {
    forall c: Category ensures c in CategoryConfig && CategoryConfig[c] == Config(c) {
      match c
      case Academic =>
      case Hostel =>
      case Food =>
      case Medical =>
      case Other =>
    }
    assert CategoryConfig.Keys == {Academic, Hostel, Food, Medical, Other};
    assert |{Academic, Hostel, Food, Medical, Other}| == 5;
  }

  /** Every colour token is its category's key, and the labels are pairwise distinct. */
  lemma ConfigDescriptors()
    ensures forall c: Category :: Config(c).color == Key(c)
    ensures forall c: Category, d: Category :: c != d ==> Config(c).caption != Config(d).caption
  {
  }

  /** A WGS84 position in decimal degrees. */
  datatype LatLng = LatLng(lat: real, lng: real)

  /** A latitude/longitude box. */
  datatype Bounds = Bounds(north: real, south: real, east: real, west: real)

  /** `CAMPUS_BOUNDS`. */
  const CampusBounds := Bounds(20.37, 20.34, 85.84, 85.80)

  /** `CAMPUS_CENTER`. */
  const CampusCenter := LatLng(20.3532, 85.8180)

  predicate WellFormedBounds(b: Bounds) {
    b.south < b.north && b.west < b.east
  }

  predicate StrictlyInside(p: LatLng, b: Bounds) {
    b.south < p.lat < b.north && b.west < p.lng < b.east
  }

  /** The campus box is well formed and its centre lies strictly inside it. */
  lemma CampusGeometry()
    ensures WellFormedBounds(CampusBounds)
    ensures StrictlyInside(CampusCenter, CampusBounds)
  {
  }

  /** A point of interest as the store returns it. */
  datatype Location = Location(
    id: string,
    name: string,
    lat: real,
    lng: real,
    category: Category,
    description: Option<string>,
    photoUrl: Option<string>,
    createdAt: string,
    updatedAt: string)
}
