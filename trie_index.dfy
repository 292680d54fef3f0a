/**
 * The read-only side of the place index: descending the trie one lowercased
 * character per level, and turning the node reached into an index range of
 * the record array plus an ambiguity flag.
 */
module TrieIndex {
  import opened Ascii
  import opened Places
  import opened TrieBuilder

  datatype Option<T> = None | Some(value: T)

  /**
   * A TrieQueryResult before its iterators are dereferenced: the records
   * [lo, hi) of the array, and whether the match is ambiguous.
   */
  datatype TrieHit = TrieHit(lo: nat, hi: nat, isAmbiguous: bool)

  /** The empty result TFoundPlaces(cend, cend): nothing found, not ambiguous. */
  function NotFound(n: nat): TrieHit {
    TrieHit(n, n, false)
  }

  /** The records matching a query: those whose lowercased name starts with the lowercased query. */
  ghost predicate Matches(places: seq<CityRecord>, query: string, i: nat)
    requires i < |places|
  {
    Lower(query) <= Lower(places[i].cityName)
  }

  /** std::lower_bound over next[lo..hi] with the comparison tn.c < ch, as a binary search. */
  function LowerBoundIn(next: seq<TrieNode>, ch: char, lo: nat, hi: nat): (i: nat)
    requires lo <= hi <= |next| && Ascending(next)
    requires forall k | 0 <= k < lo :: next[k].c < ch
    requires forall k | hi <= k < |next| :: ch <= next[k].c
    ensures lo <= i <= hi
    ensures forall k | 0 <= k < i :: next[k].c < ch
    ensures forall k | i <= k < |next| :: ch <= next[k].c
    decreases hi - lo
  {
    if lo == hi then lo
    else
      var mid := lo + (hi - lo) / 2;
      if next[mid].c < ch then LowerBoundIn(next, ch, mid + 1, hi) else LowerBoundIn(next, ch, lo, mid)
  }

  /** The first child whose label is not below ch, or |next| when there is none. */
  function LowerBound(next: seq<TrieNode>, ch: char): (i: nat)
    requires Ascending(next)
    ensures i <= |next|
    ensures forall k | 0 <= k < i :: next[k].c < ch
    ensures forall k | i <= k < |next| :: ch <= next[k].c
  {
    LowerBoundIn(next, ch, 0, |next|)
  }

  /**
   * it->c in query, which reads the label at the lower_bound position; the
   * source also reads it when that position is next.end(), where nothing is.
   */
  function LabelAtLowerBound(next: seq<TrieNode>, ch: char): (c: char)
    requires Ascending(next) && LowerBound(next, ch) < |next|
    ensures ch <= c
    ensures c == ch <==> exists k | 0 <= k < |next| :: next[k].c == ch
  {
    next[LowerBound(next, ch)].c
  }

  /** The first range start on the path that always takes the first child. */
  function LeftmostStart(node: TrieNode): Option<nat>
    decreases node
  {
    if node.idxRange.Range? then Some(node.idxRange.first)
    else if node.next == [] then None
    else LeftmostStart(node.next[0])
  }

  /** The first range start on the path that always takes the last child. */
  function RightmostStart(node: TrieNode): Option<nat>
    decreases node
  {
    if node.idxRange.Range? then Some(node.idxRange.first)
    else if node.next == [] then None
    else RightmostStart(node.next[|node.next| - 1])
  }

  /**
   * getAmbiguousHints: from the first range start down the first children
   * to the first range start down the last children, flagged ambiguous; not
   * found when either path ends in a node without a range.
   */
  function AmbiguousHints(n: nat, node: TrieNode): TrieHit
    requires node.next != []
  {
    match (LeftmostStart(node.next[0]), RightmostStart(node.next[|node.next| - 1]))
    case (Some(left), Some(right)) => TrieHit(left, right, true)
    case _ => NotFound(n)
  }

  /** getAmbiguousHints as the source writes it, with the two pointer-chasing loops. */
  method GetAmbiguousHints(n: nat, node: TrieNode) returns (r: TrieHit)
    requires node.next != []
    ensures r == AmbiguousHints(n, node)
  {
    var curr := node.next[0];
    while curr.idxRange.Unset?
      invariant LeftmostStart(curr) == LeftmostStart(node.next[0])
      decreases curr
    {
      if curr.next == [] {
        return NotFound(n);
      }
      curr := curr.next[0];
    }
    var idxLeft := curr.idxRange.first;
    curr := node.next[|node.next| - 1];
    while curr.idxRange.Unset?
      invariant RightmostStart(curr) == RightmostStart(node.next[|node.next| - 1])
      decreases curr
    {
      if curr.next == [] {
        return NotFound(n);
      }
      curr := curr.next[|curr.next| - 1];
    }
    var idxRight := curr.idxRange.first;
    return TrieHit(idxLeft, idxRight, true);
  }

  /**
   * What getAmbiguousHints evidently means to return: from the first range
   * start down the first children to the end of the last range down the
   * last children, that is, every record under the node.
   */
  function RightmostEnd(node: TrieNode): Option<nat>
    decreases node
  {
    if node.next != [] then RightmostEnd(node.next[|node.next| - 1])
    else if node.idxRange.Range? then Some(node.idxRange.second)
    else None
  }

  function CoveringHints(n: nat, node: TrieNode): TrieHit
    requires node.next != []
  {
    match (LeftmostStart(node.next[0]), RightmostEnd(node.next[|node.next| - 1]))
    case (Some(left), Some(right)) => TrieHit(left, right, true)
    case _ => NotFound(n)
  }

  /**
   * Where the ambiguous hints end: at the start of the rightmost range, as
   * getAmbiguousHints has it, or at the end of the records under the node,
   * as evidently intended.
   */
  datatype RightBound = StartOfRightmost | EndOfRightmost

  function Hints(rb: RightBound, n: nat, node: TrieNode): TrieHit
    requires node.next != []
  {
    match rb
    case StartOfRightmost => AmbiguousHints(n, node)
    case EndOfRightmost => CoveringHints(n, node)
  }

  /**
   * getFirstCompletion: a node's own range when it has one (children or
   * not), not found at a leaf without a range, the ambiguous hints when the
   * node branches, and otherwise the completion of its only child.
   */
  function FirstCompletion(rb: RightBound, n: nat, node: TrieNode): TrieHit
    decreases node
  {
    if node.idxRange.Range? then TrieHit(node.idxRange.first, node.idxRange.second, false)
    else if node.next == [] then NotFound(n)
    else if |node.next| > 1 then Hints(rb, n, node)
    else FirstCompletion(rb, n, node.next[0])
  }

  /**
   * query(cname, node, depth): the first completion once cname is used up;
   * otherwise the child labelled with the lowercased next character, or not
   * found when lower_bound lands past the last child or on another label.
   */
  function QueryNode(rb: RightBound, n: nat, cname: string, node: TrieNode, depth: nat): TrieHit
    requires depth <= |cname| && Ordered(node)
    decreases |cname| - depth
  {
    if |cname| == depth then FirstCompletion(rb, n, node)
    else
      var c := ToLower(cname[depth]);
      var i := LowerBound(node.next, c);
      if i == |node.next| || c != node.next[i].c then NotFound(n)
      else QueryNode(rb, n, cname, node.next[i], depth + 1)
  }

  // ---------------------------------------------------------------------
  // Properties of a node built by construct.

  /** Exactly the records of [b, e) start with path: also none outside it. */
  ghost predicate Exactly(places: seq<CityRecord>, b: nat, e: nat, path: string) {
    forall i | 0 <= i < |places| :: b <= i < e <==> path <= Lower(places[i].cityName)
  }

  /** Some record of [b, e) has a name that every record of [b, e) starts with. */
  ghost predicate SharedNameIn(places: seq<CityRecord>, b: nat, e: nat)
    requires b <= e <= |places|
  {
    exists j | b <= j < e :: forall i | b <= i < e :: Lower(places[j].cityName) <= Lower(places[i].cityName)
  }

  /** The run of a strictly increasing bounds sequence that holds i. */
  lemma {:induction false} LocateRun(bounds: seq<nat>, i: nat) returns (j: nat)
    requires |bounds| >= 1 && bounds[0] <= i < bounds[|bounds| - 1]
    requires forall j, k | 0 <= j < k < |bounds| :: bounds[j] < bounds[k]
    ensures j + 1 < |bounds| && bounds[j] <= i < bounds[j + 1]
    decreases |bounds|
  {
    if i < bounds[1] {
      j := 0;
    } else {
      var j' := LocateRun(bounds[1..], i);
      j := j' + 1;
    }
  }

  /**
   * A record of [b, e) that goes on after path lies in the segment of a
   * child, and continues with that child's label.
   */
  lemma InSomeChild(places: seq<CityRecord>, node: TrieNode, b: nat, e: nat, path: string, i: nat)
    returns (k: nat)
    requires Covers(places, node, b, e, path)
    requires b <= i < e && |places[i].cityName| > |path|
    ensures var bounds := RunBounds(places, ChildrenStart(node, b), e, |path|);
      && k < |node.next|
      && bounds[k] <= i < bounds[k + 1]
      && Lower(places[i].cityName)[|path|] == node.next[k].c
  {
    var bounds := RunBounds(places, ChildrenStart(node, b), e, |path|);
    k := LocateRun(bounds, i);
    var child := node.next[k];
    assert path + [child.c] <= Lower(places[i].cityName);
    assert (path + [child.c])[|path|] == child.c;
  }

  /** A record that goes on with child k's label after path lies in child k's segment. */
  lemma InChildSegment(places: seq<CityRecord>, node: TrieNode, b: nat, e: nat, path: string, k: nat, i: nat)
    requires Covers(places, node, b, e, path) && Ordered(node) && Exactly(places, b, e, path)
    requires k < |node.next| && i < |places|
    requires path + [node.next[k].c] <= Lower(places[i].cityName)
    ensures var bounds := RunBounds(places, ChildrenStart(node, b), e, |path|);
      bounds[k] <= i < bounds[k + 1]
  {
    ExtensionFacts(path, node.next[k].c, Lower(places[i].cityName));
    var j := InSomeChild(places, node, b, e, path, i);
  }

  /** A string that starts with p + [c] starts with p and goes on with c. */
  lemma ExtensionFacts(p: string, c: char, s: string)
    requires p + [c] <= s
    ensures p <= s && |p| < |s| && s[|p|] == c
  {
    assert (p + [c])[..|p|] == p;
    assert (p + [c])[|p|] == c;
  }

  /** The child labelled c covers exactly the records that go on with c after path. */
  lemma ChildExactly(places: seq<CityRecord>, node: TrieNode, b: nat, e: nat, path: string, k: nat)
    requires Covers(places, node, b, e, path) && Ordered(node) && Exactly(places, b, e, path)
    requires k < |node.next|
    ensures var bounds := RunBounds(places, ChildrenStart(node, b), e, |path|);
      Exactly(places, bounds[k], bounds[k + 1], path + [node.next[k].c])
  {
    forall i | 0 <= i < |places| && path + [node.next[k].c] <= Lower(places[i].cityName)
      ensures var bounds := RunBounds(places, ChildrenStart(node, b), e, |path|);
        bounds[k] <= i < bounds[k + 1]
    {
      InChildSegment(places, node, b, e, path, k, i);
    }
  }

  /** Under a covering node over a non-empty range, the first-child path ends at the range start b. */
  lemma {:induction false} LeftmostStartIsBegin(places: seq<CityRecord>, node: TrieNode, b: nat, e: nat, path: string)
    requires Covers(places, node, b, e, path) && b < e
    ensures LeftmostStart(node) == Some(b)
    decreases node
  {
    if node.idxRange.Unset? {
      var bounds := RunBounds(places, b, e, |path|);
      LeftmostStartIsBegin(places, node.next[0], bounds[0], bounds[1], path + [node.next[0].c]);
    }
  }

  /**
   * Under a covering node over a non-empty range, the last-child path ends
   * at a start inside it: at b when the node has its own range, and in the
   * last child's segment otherwise.
   */
  lemma {:induction false} RightmostStartInside(places: seq<CityRecord>, node: TrieNode, b: nat, e: nat, path: string)
    requires Covers(places, node, b, e, path) && b < e
    ensures RightmostStart(node).Some? && b <= RightmostStart(node).value < e
    ensures node.idxRange.Range? ==> RightmostStart(node) == Some(b)
    ensures node.idxRange.Unset? ==>
      var bounds := RunBounds(places, b, e, |path|);
      bounds[|bounds| - 2] <= RightmostStart(node).value
    decreases node
  {
    if node.idxRange.Unset? {
      var bounds := RunBounds(places, b, e, |path|);
      var m := |node.next| - 1;
      RightmostStartInside(places, node.next[m], bounds[m], bounds[m + 1], path + [node.next[m].c]);
    }
  }

  /** Under a covering node over a non-empty range, the last-child path ends at the range end e. */
  lemma {:induction false} RightmostEndIsEnd(places: seq<CityRecord>, node: TrieNode, b: nat, e: nat, path: string)
    requires Covers(places, node, b, e, path) && b < e
    ensures RightmostEnd(node) == Some(e)
    decreases node
  {
    var bounds := RunBounds(places, ChildrenStart(node, b), e, |path|);
    if node.next != [] {
      var m := |node.next| - 1;
      RightmostEndIsEnd(places, node.next[m], bounds[m], bounds[m + 1], path + [node.next[m].c]);
    }
  }

  /**
   * The ambiguous hints of a branching node without its own range over
   * [b, e): ambiguous, starting at b, but ending at a record hi < e that the
   * query matches too (the records [hi, e) are left out), whose name differs
   * from the first one's.
   */
  lemma AmbiguousHintsFacts(places: seq<CityRecord>, node: TrieNode, b: nat, e: nat, path: string, n: nat)
    requires Covers(places, node, b, e, path) && Ordered(node)
    requires node.idxRange.Unset? && |node.next| > 1
    ensures var r := AmbiguousHints(n, node);
      && r.isAmbiguous
      && b == r.lo < r.hi < e
      && Lower(places[r.lo].cityName) != Lower(places[r.hi].cityName)
  {
    var first, last := node.next[0], node.next[|node.next| - 1];
    FirstChildStart(places, node, b, e, path);
    LastChildStart(places, node, b, e, path);
    var hi := RightmostStart(last).value;
    assert first.c != last.c;
    ExtensionsDiffer(path, first.c, last.c, Lower(places[b].cityName), Lower(places[hi].cityName));
  }

  /** The first-child path of a node without a range ends at b, a record that goes on with the first label. */
  lemma FirstChildStart(places: seq<CityRecord>, node: TrieNode, b: nat, e: nat, path: string)
    requires Covers(places, node, b, e, path)
    requires node.idxRange.Unset? && node.next != []
    ensures LeftmostStart(node.next[0]) == Some(b)
    ensures b < e && path + [node.next[0].c] <= Lower(places[b].cityName)
  {
    var bounds := RunBounds(places, b, e, |path|);
    LeftmostStartIsBegin(places, node.next[0], bounds[0], bounds[1], path + [node.next[0].c]);
  }

  /**
   * The last-child path of a node without a range and with several children
   * ends past b and before e, at a record that goes on with the last label.
   */
  lemma LastChildStart(places: seq<CityRecord>, node: TrieNode, b: nat, e: nat, path: string)
    requires Covers(places, node, b, e, path)
    requires node.idxRange.Unset? && |node.next| > 1
    ensures var last := node.next[|node.next| - 1];
      && RightmostStart(last).Some?
      && b < RightmostStart(last).value < e
      && path + [last.c] <= Lower(places[RightmostStart(last).value].cityName)
  {
    var bounds := RunBounds(places, b, e, |path|);
    var m := |node.next| - 1;
    RightmostStartInside(places, node.next[m], bounds[m], bounds[m + 1], path + [node.next[m].c]);
  }

  /** Two strings that go on differently after the same prefix differ. */
  lemma ExtensionsDiffer(p: string, c: char, d: char, s: string, t: string)
    requires p + [c] <= s && p + [d] <= t && c != d
    ensures s != t
  {
    assert s[|p|] == (p + [c])[|p|] == c;
    assert t[|p|] == (p + [d])[|p|] == d;
  }

  /** The corrected hints cover exactly the records under the node. */
  lemma CoveringHintsExact(places: seq<CityRecord>, node: TrieNode, b: nat, e: nat, path: string, n: nat)
    requires Covers(places, node, b, e, path)
    requires node.idxRange.Unset? && node.next != []
    ensures CoveringHints(n, node) == TrieHit(b, e, true)
  {
    var bounds := RunBounds(places, b, e, |path|);
    var m := |node.next| - 1;
    assert LeftmostStart(node.next[0]) == Some(b) by {
      LeftmostStartIsBegin(places, node.next[0], bounds[0], bounds[1], path + [node.next[0].c]);
    }
    assert RightmostEnd(node.next[m]) == Some(e) by {
      RightmostEndIsEnd(places, node.next[m], bounds[m], bounds[m + 1], path + [node.next[m].c]);
    }
  }

  /** The last record under a node without a range goes on with the last child's label. */
  lemma LastChildEnd(places: seq<CityRecord>, node: TrieNode, b: nat, e: nat, path: string)
    requires Covers(places, node, b, e, path)
    requires node.idxRange.Unset? && node.next != []
    ensures b < e && path + [node.next[|node.next| - 1].c] <= Lower(places[e - 1].cityName)
  {
    var bounds := RunBounds(places, b, e, |path|);
    var m := |node.next| - 1;
    assert bounds[m] < bounds[m + 1] == e;
  }

  /** Under a branching node without a range, the first and the last record have different names. */
  lemma CoveringHintsFacts(places: seq<CityRecord>, node: TrieNode, b: nat, e: nat, path: string, n: nat)
    requires Covers(places, node, b, e, path) && Ordered(node)
    requires node.idxRange.Unset? && |node.next| > 1
    ensures CoveringHints(n, node) == TrieHit(b, e, true)
    ensures b < e && Lower(places[b].cityName) != Lower(places[e - 1].cityName)
  {
    var first, last := node.next[0], node.next[|node.next| - 1];
    CoveringHintsExact(places, node, b, e, path, n);
    FirstChildStart(places, node, b, e, path);
    LastChildEnd(places, node, b, e, path);
    assert first.c != last.c;
    ExtensionsDiffer(path, first.c, last.c, Lower(places[b].cityName), Lower(places[e - 1].cityName));
  }

  /**
   * Under a branching node without a range, no record of [b, e) has a name
   * that every record of [b, e) starts with: each record goes on with the
   * label of its child, and record b or record e - 1 goes on with another.
   */
  lemma NoCommonName(places: seq<CityRecord>, node: TrieNode, b: nat, e: nat, path: string)
    requires Covers(places, node, b, e, path) && Ordered(node)
    requires node.idxRange.Unset? && |node.next| > 1
    ensures !SharedNameIn(places, b, e)
  {
    var first, last := node.next[0], node.next[|node.next| - 1];
    FirstChildStart(places, node, b, e, path);
    LastChildEnd(places, node, b, e, path);
    ExtensionFacts(path, first.c, Lower(places[b].cityName));
    ExtensionFacts(path, last.c, Lower(places[e - 1].cityName));
    assert first.c < last.c;
    forall j | b <= j < e
      ensures exists i | b <= i < e :: !(Lower(places[j].cityName) <= Lower(places[i].cityName))
    {
      var k := InSomeChild(places, node, b, e, path, j);
      var i := if node.next[k].c != first.c then b else e - 1;
      assert Lower(places[j].cityName)[|path|] != Lower(places[i].cityName)[|path|];
    }
  }

  /**
   * The first completion of a node with its own range over [b, e): the
   * records whose name ends there, which are the first ones, and whose name
   * every record of [b, e) starts with.
   */
  lemma RangeCompletion(places: seq<CityRecord>, node: TrieNode, b: nat, e: nat, path: string)
    requires Covers(places, node, b, e, path) && node.idxRange.Range?
    ensures b == node.idxRange.first < node.idxRange.second <= e
    ensures forall i | b <= i < e ::
      i < node.idxRange.second <==> Lower(places[i].cityName) == Lower(places[b].cityName)
    ensures forall i | b <= i < e :: Lower(places[b].cityName) <= Lower(places[i].cityName)
  {
    assert Lower(places[b].cityName) == path;
    forall i | b <= i < e
      ensures i < node.idxRange.second <==> Lower(places[i].cityName) == path
    {
      assert |places[i].cityName| == |path| ==> Lower(places[i].cityName) == path;
    }
  }

  /**
   * The first completion of a covering node over [b, e): not found when the
   * range is empty; otherwise a non-empty part of it starting at b.  When
   * unambiguous it is the block of all records of [b, e) with the name of
   * record b, a name every record of [b, e) starts with.  When ambiguous it
   * ends, as written, at a record hi < e with another name than b's, and,
   * corrected, at e, where the last name differs from b's.
   */
  lemma {:induction false} FirstCompletionFacts(rb: RightBound, places: seq<CityRecord>, node: TrieNode, b: nat, e: nat,
                                                path: string, n: nat)
    requires Covers(places, node, b, e, path) && Ordered(node)
    ensures var r := FirstCompletion(rb, n, node);
      && (b == e ==> r == NotFound(n))
      && (b < e ==> b == r.lo < r.hi <= e)
      && (b < e && !r.isAmbiguous ==>
            && (forall i | b <= i < e :: r.lo <= i < r.hi <==> Lower(places[i].cityName) == Lower(places[b].cityName))
            && (forall i | b <= i < e :: Lower(places[b].cityName) <= Lower(places[i].cityName)))
      && (b < e && r.isAmbiguous && rb == StartOfRightmost ==>
            r.hi < e && Lower(places[r.lo].cityName) != Lower(places[r.hi].cityName))
      && (b < e && r.isAmbiguous && rb == EndOfRightmost ==>
            r.hi == e && Lower(places[b].cityName) != Lower(places[e - 1].cityName))
      && (b < e && r.isAmbiguous ==> !SharedNameIn(places, b, e))
      && (r.isAmbiguous ==> node.idxRange.Unset?)
    decreases node
  {
    if b == e {
    } else if node.idxRange.Range? {
      RangeCompletion(places, node, b, e, path);
    } else if |node.next| > 1 {
      NoCommonName(places, node, b, e, path);
      match rb
      case StartOfRightmost => AmbiguousHintsFacts(places, node, b, e, path, n);
      case EndOfRightmost => CoveringHintsFacts(places, node, b, e, path, n);
    } else {
      var child := node.next[0];
      OnlyChild(places, node, b, e, path);
      FirstCompletionFacts(rb, places, child, b, e, path + [child.c], n);
    }
  }

  /** The only child of a node without a range covers the whole of the node's records. */
  lemma OnlyChild(places: seq<CityRecord>, node: TrieNode, b: nat, e: nat, path: string)
    requires Covers(places, node, b, e, path) && Ordered(node)
    requires node.idxRange.Unset? && |node.next| == 1 && b < e
    ensures Covers(places, node.next[0], b, e, path + [node.next[0].c]) && Ordered(node.next[0])
  {
    var bounds := RunBounds(places, b, e, |path|);
    assert bounds == [b, e];
  }

  /**
   * What a query for cname may return over a trie built from places, in
   * three parts.  OutcomeRange: a part of the records matching cname,
   * starting at the first match, empty (and then the not-found value)
   * exactly when none match.
   */
  ghost predicate OutcomeRange(places: seq<CityRecord>, cname: string, r: TrieHit) {
    var n := |places|;
    && r.lo <= r.hi <= n
    && (forall i | r.lo <= i < r.hi :: Matches(places, cname, i))
    && (forall i | 0 <= i < r.lo :: !Matches(places, cname, i))
    && (r.lo == r.hi <==> forall i | 0 <= i < n :: !Matches(places, cname, i))
    && (r.lo == r.hi ==> r == NotFound(n))
  }

  /**
   * OutcomeSingle: a non-empty unambiguous result is the whole block of one
   * name, and every record matching cname starts with that name.
   */
  ghost predicate OutcomeSingle(places: seq<CityRecord>, cname: string, r: TrieHit)
    requires r.lo <= r.hi <= |places|
  {
    r.lo < r.hi && !r.isAmbiguous ==>
      && (forall i | 0 <= i < |places| ::
            r.lo <= i < r.hi <==> Lower(places[i].cityName) == Lower(places[r.lo].cityName))
      && (forall i | 0 <= i < |places| && Matches(places, cname, i) ::
            Lower(places[r.lo].cityName) <= Lower(places[i].cityName))
  }

  /**
   * OutcomeAmbiguous: no record has exactly the name queried.  As written,
   * an ambiguous result stops before a later match hi with another name
   * than the first; with the corrected bound, it is exactly the set of
   * matches, and its first and last names differ.
   */
  ghost predicate OutcomeAmbiguous(rb: RightBound, places: seq<CityRecord>, cname: string, r: TrieHit)
    requires r.lo <= r.hi <= |places|
  {
    var n := |places|;
    && (r.isAmbiguous && rb == StartOfRightmost ==>
          && r.lo < r.hi < n
          && Matches(places, cname, r.hi)
          && Lower(places[r.lo].cityName) != Lower(places[r.hi].cityName))
    && (r.isAmbiguous && rb == EndOfRightmost ==>
          && r.lo < r.hi
          && (forall i | 0 <= i < n :: r.lo <= i < r.hi <==> Matches(places, cname, i))
          && Lower(places[r.lo].cityName) != Lower(places[r.hi - 1].cityName))
    && (r.isAmbiguous ==> forall i | 0 <= i < n :: Lower(places[i].cityName) != Lower(cname))
  }

  /** Some record matching cname has a name that every record matching cname starts with. */
  ghost predicate SharedName(places: seq<CityRecord>, cname: string) {
    exists j | 0 <= j < |places| && Matches(places, cname, j) ::
      forall i | 0 <= i < |places| && Matches(places, cname, i) :: Lower(places[j].cityName) <= Lower(places[i].cityName)
  }

  /** Over the exact block of matches, a name shared by the block is one shared by the matches. */
  lemma SharedNameExactly(places: seq<CityRecord>, cname: string, b: nat, e: nat)
    requires Exactly(places, b, e, Lower(cname)) && b <= e <= |places|
    ensures SharedName(places, cname) <==> SharedNameIn(places, b, e)
  {
    if SharedName(places, cname) {
      SharedNameToBlock(places, cname, b, e);
    }
    if SharedNameIn(places, b, e) {
      SharedNameFromBlock(places, cname, b, e);
    }
  }

  lemma SharedNameToBlock(places: seq<CityRecord>, cname: string, b: nat, e: nat)
    requires Exactly(places, b, e, Lower(cname)) && b <= e <= |places|
    requires SharedName(places, cname)
    ensures SharedNameIn(places, b, e)
  {
    var n := |places|;
    var j :| 0 <= j < n && Matches(places, cname, j) &&
      forall i | 0 <= i < n && Matches(places, cname, i) :: Lower(places[j].cityName) <= Lower(places[i].cityName);
    assert b <= j < e;
    forall i | b <= i < e
      ensures Lower(places[j].cityName) <= Lower(places[i].cityName)
    {
      assert Matches(places, cname, i);
    }
  }

  lemma SharedNameFromBlock(places: seq<CityRecord>, cname: string, b: nat, e: nat)
    requires Exactly(places, b, e, Lower(cname)) && b <= e <= |places|
    requires SharedNameIn(places, b, e)
    ensures SharedName(places, cname)
  {
    var n := |places|;
    var j :| b <= j < e && forall i | b <= i < e :: Lower(places[j].cityName) <= Lower(places[i].cityName);
    assert Matches(places, cname, j);
    forall i | 0 <= i < n && Matches(places, cname, i)
      ensures Lower(places[j].cityName) <= Lower(places[i].cityName)
    {
      assert b <= i < e;
    }
  }

  /**
   * A query outcome: OutcomeRange, OutcomeSingle and OutcomeAmbiguous, and
   * the flag set only when the matches share no name.  With OutcomeSingle
   * this decides the flag of a non-empty result (QueryFlag).
   */
  ghost predicate QueryOutcome(rb: RightBound, places: seq<CityRecord>, cname: string, r: TrieHit) {
    && OutcomeRange(places, cname, r)
    && OutcomeSingle(places, cname, r)
    && OutcomeAmbiguous(rb, places, cname, r)
    && (r.isAmbiguous ==> !SharedName(places, cname))
  }

  /**
   * A result that lies as FirstCompletionFacts says inside [b, e), the
   * exact set of records matching cname, is a query outcome.
   */
  lemma OutcomeInBlock(rb: RightBound, places: seq<CityRecord>, cname: string, r: TrieHit, b: nat, e: nat)
    requires Exactly(places, b, e, Lower(cname)) && b <= e <= |places|
    requires b == e ==> r == NotFound(|places|)
    requires b < e ==> b == r.lo < r.hi <= e
    requires b < e && !r.isAmbiguous ==>
      && (forall i | b <= i < e :: r.lo <= i < r.hi <==> Lower(places[i].cityName) == Lower(places[b].cityName))
      && (forall i | b <= i < e :: Lower(places[b].cityName) <= Lower(places[i].cityName))
    requires b < e && r.isAmbiguous && rb == StartOfRightmost ==>
      r.hi < e && Lower(places[r.lo].cityName) != Lower(places[r.hi].cityName)
    requires b < e && r.isAmbiguous && rb == EndOfRightmost ==>
      r.hi == e && Lower(places[b].cityName) != Lower(places[e - 1].cityName)
    requires r.isAmbiguous ==> forall i | b <= i < e :: |places[i].cityName| != |cname|
    requires b < e && r.isAmbiguous ==> !SharedNameIn(places, b, e)
    ensures QueryOutcome(rb, places, cname, r)
  {
    RangeInBlock(places, cname, r, b, e);
    SingleInBlock(places, cname, r, b, e);
    AmbiguousInBlock(rb, places, cname, r, b, e);
    NoSharedNameInBlock(places, cname, r, b, e);
  }

  /** The range part of OutcomeInBlock. */
  lemma RangeInBlock(places: seq<CityRecord>, cname: string, r: TrieHit, b: nat, e: nat)
    requires Exactly(places, b, e, Lower(cname)) && b <= e <= |places|
    requires b == e ==> r == NotFound(|places|)
    requires b < e ==> b == r.lo < r.hi <= e
    ensures OutcomeRange(places, cname, r)
  {
    if b < e {
      assert Matches(places, cname, b);
    }
  }

  /** The unambiguous part of OutcomeInBlock. */
  lemma SingleInBlock(places: seq<CityRecord>, cname: string, r: TrieHit, b: nat, e: nat)
    requires Exactly(places, b, e, Lower(cname)) && b <= e <= |places|
    requires b == e ==> r == NotFound(|places|)
    requires b < e ==> b == r.lo < r.hi <= e
    requires b < e && !r.isAmbiguous ==>
      && (forall i | b <= i < e :: r.lo <= i < r.hi <==> Lower(places[i].cityName) == Lower(places[b].cityName))
      && (forall i | b <= i < e :: Lower(places[b].cityName) <= Lower(places[i].cityName))
    ensures r.lo <= r.hi <= |places| && OutcomeSingle(places, cname, r)
  {
    var n := |places|;
    if b < e && !r.isAmbiguous {
      assert Matches(places, cname, b);
      forall i | 0 <= i < n && Lower(places[i].cityName) == Lower(places[r.lo].cityName)
        ensures b <= i < e
      {
        assert Lower(cname) <= Lower(places[r.lo].cityName);
      }
    }
  }

  /** The ambiguous part of OutcomeInBlock. */
  lemma AmbiguousInBlock(rb: RightBound, places: seq<CityRecord>, cname: string, r: TrieHit, b: nat, e: nat)
    requires Exactly(places, b, e, Lower(cname)) && b <= e <= |places|
    requires b == e ==> r == NotFound(|places|)
    requires b < e ==> b == r.lo < r.hi <= e
    requires b < e && r.isAmbiguous && rb == StartOfRightmost ==>
      r.hi < e && Lower(places[r.lo].cityName) != Lower(places[r.hi].cityName)
    requires b < e && r.isAmbiguous && rb == EndOfRightmost ==>
      r.hi == e && Lower(places[b].cityName) != Lower(places[e - 1].cityName)
    requires r.isAmbiguous ==> forall i | b <= i < e :: |places[i].cityName| != |cname|
    ensures r.lo <= r.hi <= |places| && OutcomeAmbiguous(rb, places, cname, r)
  {
    if r.isAmbiguous {
      assert Matches(places, cname, b);
    }
  }

  /** An ambiguous result over the exact block of matches, which shares no name: the matches share none. */
  lemma NoSharedNameInBlock(places: seq<CityRecord>, cname: string, r: TrieHit, b: nat, e: nat)
    requires Exactly(places, b, e, Lower(cname)) && b <= e <= |places|
    requires b == e ==> r == NotFound(|places|)
    requires b < e && r.isAmbiguous ==> !SharedNameIn(places, b, e)
    ensures r.isAmbiguous ==> !SharedName(places, cname)
  {
    if r.isAmbiguous {
      SharedNameExactly(places, cname, b, e);
    }
  }

  /** Once cname is used up at a node covering exactly its matches, the first completion is a query outcome. */
  lemma CompletionOutcome(rb: RightBound, places: seq<CityRecord>, cname: string, node: TrieNode, b: nat, e: nat)
    requires Covers(places, node, b, e, Lower(cname)) && Ordered(node) && Exactly(places, b, e, Lower(cname))
    ensures QueryOutcome(rb, places, cname, FirstCompletion(rb, |places|, node))
  {
    var n := |places|;
    FirstCompletionFacts(rb, places, node, b, e, Lower(cname), n);
    OutcomeInBlock(rb, places, cname, FirstCompletion(rb, n, node), b, e);
  }

  /** When no child carries the next lowercased character of cname, no record matches cname. */
  lemma NoChildNoMatch(places: seq<CityRecord>, cname: string, node: TrieNode, b: nat, e: nat, path: string, depth: nat)
    requires Covers(places, node, b, e, path) && Exactly(places, b, e, path)
    requires depth < |cname| && path == Lower(cname)[..depth]
    requires forall k | 0 <= k < |node.next| :: node.next[k].c != ToLower(cname[depth])
    ensures forall i | 0 <= i < |places| :: !Matches(places, cname, i)
  {
    forall i | 0 <= i < |places| && Matches(places, cname, i)
      ensures false
    {
      assert path <= Lower(places[i].cityName) by {
        assert Lower(cname)[..depth] <= Lower(cname);
      }
      var j := InSomeChild(places, node, b, e, path, i);
    }
  }

  /** Child k of a node that covers exactly the records starting with path does so one level down. */
  lemma ChildFacts(places: seq<CityRecord>, node: TrieNode, b: nat, e: nat, path: string, k: nat)
    returns (b': nat, e': nat)
    requires Covers(places, node, b, e, path) && Ordered(node) && Exactly(places, b, e, path)
    requires k < |node.next|
    ensures var child := node.next[k];
      Covers(places, child, b', e', path + [child.c]) && Ordered(child) && Exactly(places, b', e', path + [child.c])
  {
    var bounds := RunBounds(places, ChildrenStart(node, b), e, |path|);
    b', e' := bounds[k], bounds[k + 1];
    ChildExactly(places, node, b, e, path, k);
  }

  /** Not found is the outcome of a query that nothing matches. */
  lemma NotFoundOutcome(rb: RightBound, places: seq<CityRecord>, cname: string)
    requires forall i | 0 <= i < |places| :: !Matches(places, cname, i)
    ensures QueryOutcome(rb, places, cname, NotFound(|places|))
  {
  }

  /** One more character of s taken by a prefix. */
  lemma PrefixStep(s: string, d: nat)
    requires d < |s|
    ensures s[..d + 1] == s[..d] + [s[d]]
  {
  }

  /**
   * query from a node that covers exactly the records starting with path,
   * the lowercased first depth characters of cname, is a query outcome.
   */
  lemma {:induction false} QueryNodeFacts(rb: RightBound, places: seq<CityRecord>, cname: string, node: TrieNode,
                                          b: nat, e: nat, path: string, depth: nat)
    requires Covers(places, node, b, e, path) && Ordered(node) && Exactly(places, b, e, path)
    requires depth <= |cname| && path == Lower(cname)[..depth]
    ensures QueryOutcome(rb, places, cname, QueryNode(rb, |places|, cname, node, depth))
    decreases |cname| - depth
  {
    var n := |places|;
    if |cname| == depth {
      assert path == Lower(cname);
      CompletionOutcome(rb, places, cname, node, b, e);
    } else {
      var c := ToLower(cname[depth]);
      var k := LowerBound(node.next, c);
      if k == |node.next| || c != node.next[k].c {
        NoChildNoMatch(places, cname, node, b, e, path, depth);
        NotFoundOutcome(rb, places, cname);
      } else {
        var b', e' := ChildFacts(places, node, b, e, path, k);
        PrefixStep(Lower(cname), depth);
        QueryNodeFacts(rb, places, cname, node.next[k], b', e', path + [c], depth + 1);
      }
    }
  }

  /** query looks at the query only through its length and its lowercased characters. */
  lemma {:induction false} QueryNodeCaseInsensitive(rb: RightBound, n: nat, a: string, a': string, node: TrieNode,
                                                    depth: nat)
    requires Lower(a) == Lower(a') && depth <= |a| && Ordered(node)
    ensures |a'| == |a|
    ensures QueryNode(rb, n, a, node, depth) == QueryNode(rb, n, a', node, depth)
    decreases |a| - depth
  {
    assert |Lower(a)| == |Lower(a')|;
    if depth < |a| {
      assert ToLower(a[depth]) == Lower(a)[depth];
      var i := LowerBound(node.next, ToLower(a[depth]));
      if i < |node.next| && ToLower(a[depth]) == node.next[i].c {
        QueryNodeCaseInsensitive(rb, n, a, a', node.next[i], depth + 1);
      }
    }
  }

  // ---------------------------------------------------------------------
  // The index: the record array and the trie built over it.

  datatype PlacesTrie = PlacesTrie(places: seq<CityRecord>, root: TrieNode)

  /** What the PlacesTrie constructor leaves behind. */
  ghost predicate Valid(t: PlacesTrie) {
    && Sorted(t.places) && NulFree(t.places)
    && t.root.c == NUL
    && Covers(t.places, t.root, 0, |t.places|, [])
    && Ordered(t.root)
  }

  /** The PlacesTrie constructor: a root labelled NUL, built over the whole array at depth 0. */
  method Build(places: seq<CityRecord>) returns (t: PlacesTrie)
    requires Sorted(places) && NulFree(places)
    ensures t.places == places && Valid(t)
  {
    var root := Construct(places, 0, |places|, 0, [], NUL);
    t := PlacesTrie(places, root);
  }

  /** The whole-index form of QueryNodeFacts, from the root and the empty path. */
  lemma QueryFacts(rb: RightBound, t: PlacesTrie, cname: string)
    requires Valid(t)
    ensures QueryOutcome(rb, t.places, cname, QueryNode(rb, |t.places|, cname, t.root, 0))
  {
    assert Lower(cname)[..0] == [];
    QueryNodeFacts(rb, t.places, cname, t.root, 0, |t.places|, [], 0);
  }

  /** QueryFacts without the flag rule: what the examples below need. */
  lemma QueryRangeParts(rb: RightBound, t: PlacesTrie, cname: string)
    requires Valid(t)
    ensures var h := QueryNode(rb, |t.places|, cname, t.root, 0);
      && OutcomeRange(t.places, cname, h)
      && OutcomeSingle(t.places, cname, h)
      && OutcomeAmbiguous(rb, t.places, cname, h)
  {
    QueryFacts(rb, t, cname);
  }

  /** query(cname) on the index, as a range of the record array. */
  function QueryRange(rb: RightBound, t: PlacesTrie, cname: string): (r: TrieHit)
    requires Valid(t)
    ensures r.lo <= r.hi <= |t.places|
    ensures forall i | r.lo <= i < r.hi :: Matches(t.places, cname, i)
    ensures r.lo == r.hi <==> forall i | 0 <= i < |t.places| :: !Matches(t.places, cname, i)
    ensures r.lo == r.hi ==> !r.isAmbiguous
  {
    QueryFacts(rb, t, cname);
    QueryNode(rb, |t.places|, cname, t.root, 0)
  }

  /**
   * A query for the name of a stored record is unambiguous, and gives the
   * block of all records with that name, case-insensitively.
   */
  lemma QueryExactName(rb: RightBound, t: PlacesTrie, k: nat)
    requires Valid(t) && k < |t.places|
    ensures var h := QueryRange(rb, t, t.places[k].cityName);
      && !h.isAmbiguous && h.lo <= k < h.hi
      && forall i | 0 <= i < |t.places| ::
           h.lo <= i < h.hi <==> Lower(t.places[i].cityName) == Lower(t.places[k].cityName)
  {
    var name := t.places[k].cityName;
    QueryFacts(rb, t, name);
    var h := QueryRange(rb, t, name);
    assert Matches(t.places, name, k);
    assert Matches(t.places, name, h.lo);
    assert Lower(t.places[h.lo].cityName) == Lower(name);
  }

  /**
   * The flag of a query that finds something: ambiguous exactly when no
   * matching record has a name that every match starts with.
   */
  lemma QueryFlag(rb: RightBound, t: PlacesTrie, cname: string)
    requires Valid(t)
    ensures var h := QueryRange(rb, t, cname);
      h.lo < h.hi ==> (h.isAmbiguous <==> !SharedName(t.places, cname))
  {
    QueryFacts(rb, t, cname);
    OutcomeFlag(rb, t.places, cname, QueryRange(rb, t, cname));
  }

  /** A non-empty unambiguous outcome has a shared name: the name of its first record. */
  lemma OutcomeFlag(rb: RightBound, places: seq<CityRecord>, cname: string, r: TrieHit)
    requires QueryOutcome(rb, places, cname, r)
    ensures r.lo < r.hi ==> (r.isAmbiguous <==> !SharedName(places, cname))
  {
    if r.lo < r.hi && !r.isAmbiguous {
      assert Matches(places, cname, r.lo);
      assert forall i | 0 <= i < |places| && Matches(places, cname, i) ::
        Lower(places[r.lo].cityName) <= Lower(places[i].cityName);
    }
  }

  /** The result of a query: the records found, in array order, and the ambiguity flag. */
  datatype TrieQueryResult = TrieQueryResult(places: seq<CityRecord>, isAmbiguous: bool)

  /** The records of [lo, hi), taken out as a sequence, still match cname. */
  lemma SliceMatches(places: seq<CityRecord>, cname: string, lo: nat, hi: nat)
    requires lo <= hi <= |places|
    requires forall i | lo <= i < hi :: Matches(places, cname, i)
    ensures forall i | 0 <= i < |places[lo..hi]| :: Lower(cname) <= Lower(places[lo..hi][i].cityName)
  {
    assert forall i | 0 <= i < hi - lo :: places[lo..hi][i] == places[lo + i] && Matches(places, cname, lo + i);
  }

  /** PlacesTrie::query: the records of QueryRange, every one of them matching the query. */
  function Query(rb: RightBound, t: PlacesTrie, cname: string): (r: TrieQueryResult)
    requires Valid(t)
    ensures forall i | 0 <= i < |r.places| :: Lower(cname) <= Lower(r.places[i].cityName)
    ensures r.places == [] <==> forall i | 0 <= i < |t.places| :: !Matches(t.places, cname, i)
    ensures r.places == [] ==> !r.isAmbiguous
  {
    var h := QueryRange(rb, t, cname);
    SliceMatches(t.places, cname, h.lo, h.hi);
    TrieQueryResult(t.places[h.lo..h.hi], h.isAmbiguous)
  }

  /** Queries that agree once lowercased get the same result. */
  lemma QueryCaseInsensitive(rb: RightBound, t: PlacesTrie, a: string, a': string)
    requires Valid(t) && Lower(a) == Lower(a')
    ensures Query(rb, t, a) == Query(rb, t, a')
  {
    QueryNodeCaseInsensitive(rb, |t.places|, a, a', t.root, 0);
  }

  // ---------------------------------------------------------------------
  // Two small record arrays on which the source goes wrong.

  /** Two names that share only their first letter. */
  const FORKED_NAMES := [CityRecord("Ab", "WA", Location("", "")), CityRecord("Ac", "WA", Location("", ""))]

  /** Both records of FORKED_NAMES match "a", and neither name starts with the other. */
  lemma ForkedNamesMatch()
    ensures Matches(FORKED_NAMES, "a", 0) && Matches(FORKED_NAMES, "a", 1)
    ensures !(Lower(FORKED_NAMES[0].cityName) <= Lower(FORKED_NAMES[1].cityName))
  {
    assert Lower("a") == "a" && Lower("Ab") == "ab" && Lower("Ac") == "ac";
    assert !("ab" <= "ac") by {
      assert "ab"[1] != "ac"[1];
    }
  }

  /**
   * On any trie over FORKED_NAMES, the query "a" matches both records, but
   * the ambiguous result getAmbiguousHints gives holds only the first.
   */
  lemma RightBoundDropsMatch(t: PlacesTrie)
    requires Valid(t) && t.places == FORKED_NAMES
    ensures Matches(t.places, "a", 0) && Matches(t.places, "a", 1)
    ensures QueryRange(StartOfRightmost, t, "a") == TrieHit(0, 1, true)
  {
    ForkedNamesMatch();
    QueryRangeParts(StartOfRightmost, t, "a");
  }

  /** With the corrected right bound the same query gives both records. */
  lemma CorrectedBoundKeepsMatches(t: PlacesTrie)
    requires Valid(t) && t.places == FORKED_NAMES
    ensures QueryRange(EndOfRightmost, t, "a") == TrieHit(0, 2, true)
  {
    ForkedNamesMatch();
    QueryRangeParts(EndOfRightmost, t, "a");
  }

  /** A single record, named "a". */
  const ONE_NAME := [CityRecord("a", "WA", Location("", ""))]

  /**
   * On any trie over ONE_NAME, looking up 'b' among the root's children
   * lands past the last child: the position where query dereferences the
   * end iterator.
   */
  lemma EndIteratorReached(t: PlacesTrie)
    requires Valid(t) && t.places == ONE_NAME
    ensures |t.root.next| == 1 && t.root.next[0].c == 'a'
    ensures LowerBound(t.root.next, 'b') == |t.root.next|
  {
    assert RunBounds(t.places, 0, 1, 0) == [0, 1];
    assert Label(t.places, 0, 0) == 'a';
  }
}
