/**
 * The record store: one place record per line of the places file, and the
 * order std::sort leaves them in (case-insensitive name, then state).
 */
module Places {
  import opened Ascii

  /** Success with a value, or the message of the std::invalid_argument thrown. */
  datatype Result<T> = Ok(value: T) | Err(message: string)

  /**
   * A place's coordinates, kept as the two fixed-width text fields the loader
   * hands to std::stod (the floating-point conversion is not modelled).
   */
  datatype Location = Location(lat: string, long: string)

  datatype CityRecord = CityRecord(cityName: string, state: string, location: Location)

  /** The comparator given to std::sort: name first, state to break ties, both case-insensitive. */
  function RecordLess(a: CityRecord, b: CityRecord): (less: bool)
    ensures less ==> Lower(a.cityName) != Lower(b.cityName) || Lower(a.state) != Lower(b.state)
    ensures Lower(a.cityName) != Lower(b.cityName) ==> (less <==> CaseCompare(b.cityName, a.cityName) > 0)
  {
    CaseCompareAntisymmetric(a.cityName, b.cityName);
    var cmp := CaseCompare(a.cityName, b.cityName);
    if cmp == 0 then CaseCompare(a.state, b.state) < 0 else cmp < 0
  }

  /** What std::sort guarantees: no record is RecordLess than one before it. */
  predicate Sorted(places: seq<CityRecord>) {
    forall i, j {:trigger RecordLess(places[j], places[i])} | 0 <= i < j < |places| :: !RecordLess(places[j], places[i])
  }

  /** Names hold no NUL, so the NUL read at index size() marks exactly the end of a name. */
  predicate NulFree(places: seq<CityRecord>) {
    forall i | 0 <= i < |places| :: NUL !in places[i].cityName
  }

  /** In a sorted store, names never decrease under strcasecmp. */
  lemma SortedByName(places: seq<CityRecord>, i: nat, j: nat)
    requires Sorted(places) && i <= j < |places|
    ensures CaseCompare(places[i].cityName, places[j].cityName) <= 0
  {
    if i < j {
      assert !RecordLess(places[j], places[i]);
      CaseCompareAntisymmetric(places[i].cityName, places[j].cityName);
    }
  }

  /**
   * Records of a sorted store that agree (lowercased) on their first |p|
   * characters are ordered by their next character, a name that ends there
   * coming first.
   */
  lemma CharAtMonotone(places: seq<CityRecord>, i: nat, j: nat, p: string)
    requires Sorted(places) && i <= j < |places|
    requires p <= Lower(places[i].cityName) && p <= Lower(places[j].cityName)
    ensures CharAt(places[i].cityName, |p|) <= CharAt(places[j].cityName, |p|)
  {
    SortedByName(places, i, j);
    CaseCompareAtCommonPrefix(places[i].cityName, places[j].cityName, p);
  }
}
