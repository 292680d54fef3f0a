/**
 * queryPlace: a trie query for the city, then the state hint: a single
 * match or an ambiguous result comes back as it is, no state flags the
 * result ambiguous, and a state keeps the records of that state only.
 */
module Resolver {
  import opened Ascii
  import opened Places
  import opened TrieIndex

  /** The record is in the given state: strcasecmp of the two states is 0. */
  function SameState(rec: CityRecord, state: string): (b: bool)
    ensures b <==> Lower(rec.state) == Lower(state)
  {
    CaseCompare(rec.state, state) == 0
  }

  /** What erase(remove_if(...)) leaves of pl: the records in the given state, in their order. */
  function KeepState(pl: seq<CityRecord>, state: string): (kept: seq<CityRecord>)
    ensures |kept| <= |pl|
    decreases |pl|
  {
    if pl == [] then []
    else
      var last := pl[|pl| - 1];
      var rest := KeepState(pl[..|pl| - 1], state);
      if SameState(last, state) then rest + [last] else rest
  }

  /** The records kept are those of pl in the state, each as often as in pl, and the others are gone. */
  lemma {:induction false} KeepStateMembers(pl: seq<CityRecord>, state: string)
    ensures forall x | x in KeepState(pl, state) :: x in pl && SameState(x, state)
    ensures forall x | x in pl && SameState(x, state) :: x in KeepState(pl, state)
    ensures forall x | SameState(x, state) :: multiset(KeepState(pl, state))[x] == multiset(pl)[x]
    ensures forall x | !SameState(x, state) :: multiset(KeepState(pl, state))[x] == 0
    decreases |pl|
  {
    if pl != [] {
      var last := pl[|pl| - 1];
      KeepStateMembers(pl[..|pl| - 1], state);
      assert pl == pl[..|pl| - 1] + [last];
    }
  }

  /**
   * KeepState is the order-preserving filter: it works piecewise on a
   * concatenation.
   */
  lemma {:induction false} KeepStateAppend(a: seq<CityRecord>, b: seq<CityRecord>, state: string)
    ensures KeepState(a + b, state) == KeepState(a, state) + KeepState(b, state)
    decreases |b|
  {
    if b != [] {
      var b' := b[..|b| - 1];
      assert (a + b)[..|a + b| - 1] == a + b';
      KeepStateAppend(a, b', state);
    } else {
      assert a + b == a;
    }
  }

  /** States that agree once lowercased keep the same records. */
  lemma {:induction false} KeepStateCaseInsensitive(pl: seq<CityRecord>, s: string, s': string)
    requires Lower(s) == Lower(s')
    ensures KeepState(pl, s) == KeepState(pl, s')
    decreases |pl|
  {
    if pl != [] {
      KeepStateCaseInsensitive(pl[..|pl| - 1], s, s');
    }
  }

  /**
   * How a query result with no state hint is flagged: as written, always
   * ambiguous; as evidently intended, ambiguous only when it holds several
   * records (so that not found stays unambiguous).
   */
  datatype NoStateRule = AlwaysAmbiguous | AmbiguousIfSeveral

  /** queryPlace once the trie has answered, as a function of the trie's result. */
  function Resolve(ns: NoStateRule, r: TrieQueryResult, state: string): (res: TrieQueryResult)
    ensures |r.places| == 1 || r.isAmbiguous ==> res == r
    ensures multiset(res.places) <= multiset(r.places)
    ensures r.isAmbiguous ==> res.isAmbiguous
    ensures state != [] ==> res.isAmbiguous == r.isAmbiguous
    ensures state != [] && |r.places| != 1 && !r.isAmbiguous ==> forall x | x in res.places :: SameState(x, state)
    ensures state == [] ==> res.places == r.places
    ensures state == [] && |r.places| != 1 && !r.isAmbiguous ==>
      res.isAmbiguous == (ns == AlwaysAmbiguous || |r.places| > 1)
    ensures state != [] && |r.places| != 1 && !r.isAmbiguous ==> res.places == KeepState(r.places, state)
  {
    if |r.places| == 1 || r.isAmbiguous then r
    else if state == [] then
      TrieQueryResult(r.places, match ns case AlwaysAmbiguous => true case AmbiguousIfSeveral => |r.places| > 1)
    else
      KeepStateMembers(r.places, state);
      TrieQueryResult(KeepState(r.places, state), r.isAmbiguous)
  }

  /**
   * The erase-remove idiom on a copy of the records: every record in the
   * given state is moved down to the write position w, and the records
   * before w are what is left.
   */
  method EraseOtherStates(pl: seq<CityRecord>, state: string) returns (kept: seq<CityRecord>)
    ensures kept == KeepState(pl, state)
  {
    var a := new CityRecord[|pl|](i requires 0 <= i < |pl| => pl[i]);
    var w: nat := 0;
    for i := 0 to a.Length
      invariant w <= i
      invariant a[..w] == KeepState(pl[..i], state)
      invariant forall j | i <= j < a.Length :: a[j] == pl[j]
    {
      w := FilterStep(a, pl, state, i, w);
    }
    assert pl[..a.Length] == pl;
    kept := a[..w];
  }

  /**
   * One step of remove_if: the record at i is moved down to w when it is in
   * the state, and w advances past it; the records not yet looked at stay.
   */
  method FilterStep(a: array<CityRecord>, pl: seq<CityRecord>, state: string, i: nat, w: nat)
    returns (w': nat)
    requires a.Length == |pl| && w <= i < |pl|
    requires a[..w] == KeepState(pl[..i], state)
    requires forall j | i <= j < a.Length :: a[j] == pl[j]
    modifies a
    ensures w' <= i + 1
    ensures a[..w'] == KeepState(pl[..i + 1], state)
    ensures forall j | i + 1 <= j < a.Length :: a[j] == pl[j]
  {
    KeepStateSnoc(pl, i, state);
    var x := a[i];
    w' := w;
    if SameState(x, state) {
      ghost var before := a[..w];
      a[w] := x;
      assert a[..w + 1] == before + [x];
      w' := w + 1;
    }
  }

  /** One more record of pl filtered: kept at the end when in the state, dropped otherwise. */
  lemma KeepStateSnoc(pl: seq<CityRecord>, i: nat, state: string)
    requires i < |pl|
    ensures KeepState(pl[..i + 1], state) ==
      if SameState(pl[i], state) then KeepState(pl[..i], state) + [pl[i]] else KeepState(pl[..i], state)
  {
    assert pl[..i + 1][..i] == pl[..i];
  }

  /** queryPlace: the trie query, the early returns, and the state filter. */
  method QueryPlace(rb: RightBound, ns: NoStateRule, t: PlacesTrie, city: string, state: string)
    returns (result: TrieQueryResult)
    requires Valid(t)
    ensures result == Resolve(ns, Query(rb, t, city), state)
  {
    result := Query(rb, t, city);
    if |result.places| == 1 || result.isAmbiguous {
      return;
    }
    if state == [] {
      var flag := match ns case AlwaysAmbiguous => true case AmbiguousIfSeveral => |result.places| > 1;
      result := result.(isAmbiguous := flag);
      return;
    }
    var kept := EraseOtherStates(result.places, state);
    result := result.(places := kept);
  }

  /** Every record's state compares equal to itself. */
  lemma SameStateReflexive(rec: CityRecord)
    ensures SameState(rec, rec.state)
  {
    CaseCompareAntisymmetric(rec.state, rec.state);
  }

  /** The records [lo, hi) that are exactly those named like record k, taken out as a sequence. */
  lemma NameBlock(places: seq<CityRecord>, lo: nat, hi: nat, k: nat)
    requires lo <= k < hi <= |places|
    requires forall i | 0 <= i < |places| :: lo <= i < hi <==> Lower(places[i].cityName) == Lower(places[k].cityName)
    ensures places[k] in places[lo..hi]
    ensures forall x | x in places[lo..hi] :: Lower(x.cityName) == Lower(places[k].cityName)
    ensures forall i | 0 <= i < |places| && Lower(places[i].cityName) == Lower(places[k].cityName) ::
      places[i] in places[lo..hi]
  {
    var pl := places[lo..hi];
    assert pl[k - lo] == places[k];
    forall x | x in pl
      ensures Lower(x.cityName) == Lower(places[k].cityName)
    {
      var j :| 0 <= j < |pl| && pl[j] == x;
      assert x == places[lo + j];
    }
    forall i | 0 <= i < |places| && Lower(places[i].cityName) == Lower(places[k].cityName)
      ensures places[i] in pl
    {
      assert pl[i - lo] == places[i];
    }
  }

  /**
   * An unambiguous trie result holding rec, resolved with rec's own
   * (non-empty) state: unambiguous, holding rec and exactly the records of
   * the trie result in that state.
   */
  lemma ResolveWithOwnState(ns: NoStateRule, r: TrieQueryResult, rec: CityRecord)
    requires !r.isAmbiguous && rec in r.places && rec.state != []
    ensures var res := Resolve(ns, r, rec.state);
      && !res.isAmbiguous && rec in res.places
      && (forall x | x in res.places :: x in r.places && SameState(x, rec.state))
      && (forall x | x in r.places && SameState(x, rec.state) :: x in res.places)
  {
    SameStateReflexive(rec);
    KeepStateMembers(r.places, rec.state);
    if |r.places| == 1 {
      assert r.places == [rec];
    }
  }

  /**
   * A record looked up by its own name and (non-empty) state is found: the
   * answer is unambiguous and consists exactly of the records with that
   * name and that state, case-insensitively, among them the record itself.
   */
  lemma ResolveFindsRecord(rb: RightBound, ns: NoStateRule, t: PlacesTrie, k: nat)
    requires Valid(t) && k < |t.places| && t.places[k].state != []
    ensures var rec := t.places[k];
      var res := Resolve(ns, Query(rb, t, rec.cityName), rec.state);
      && !res.isAmbiguous
      && rec in res.places
      && (forall x | x in res.places :: Lower(x.cityName) == Lower(rec.cityName) && SameState(x, rec.state))
      && (forall i | 0 <= i < |t.places| && Lower(t.places[i].cityName) == Lower(rec.cityName)
            && SameState(t.places[i], rec.state) :: t.places[i] in res.places)
  {
    var rec := t.places[k];
    var h := QueryRange(rb, t, rec.cityName);
    QueryExactName(rb, t, k);
    NameBlock(t.places, h.lo, h.hi, k);
    ResolveWithOwnState(ns, Query(rb, t, rec.cityName), rec);
  }

  /** Lookups that agree once lowercased, in the city and in the state, get the same answer. */
  lemma ResolveCaseInsensitive(rb: RightBound, ns: NoStateRule, t: PlacesTrie, a: string, a': string,
                               s: string, s': string)
    requires Valid(t) && Lower(a) == Lower(a') && Lower(s) == Lower(s')
    ensures Resolve(ns, Query(rb, t, a), s) == Resolve(ns, Query(rb, t, a'), s')
  {
    QueryCaseInsensitive(rb, t, a, a');
    KeepStateCaseInsensitive(Query(rb, t, a).places, s, s');
    assert |s| == |Lower(s)| == |Lower(s')| == |s'|;
  }

  /** As written, a city nobody has, looked up without a state, comes back empty but ambiguous. */
  lemma ResolveFlagsNotFound(rb: RightBound, t: PlacesTrie, city: string)
    requires Valid(t) && forall i | 0 <= i < |t.places| :: !Matches(t.places, city, i)
    ensures Resolve(AlwaysAmbiguous, Query(rb, t, city), "") == TrieQueryResult([], true)
  {
  }

  /** As intended, the same lookup comes back empty and unambiguous, the not-found answer. */
  lemma ResolveIntendedNotFound(rb: RightBound, t: PlacesTrie, city: string, state: string)
    requires Valid(t) && forall i | 0 <= i < |t.places| :: !Matches(t.places, city, i)
    ensures Resolve(AmbiguousIfSeveral, Query(rb, t, city), state) == TrieQueryResult([], false)
  {
  }

  /**
   * Without a state, as intended, an answer is ambiguous exactly when it
   * holds more than one record or the trie flagged it.
   */
  lemma ResolveIntendedNoState(rb: RightBound, t: PlacesTrie, city: string)
    requires Valid(t)
    ensures var r := Query(rb, t, city);
      Resolve(AmbiguousIfSeveral, r, "").isAmbiguous <==> |r.places| > 1 || r.isAmbiguous
  {
  }
}
