/**
 * The trie builder: splits a sorted record array into a character tree.
 * Every node stores either an index range [first, second) into the shared
 * array, for the records whose name ends at that node, or the unset
 * sentinel; its children are the runs of records that go on with the same
 * lowercased character.
 */
module TrieBuilder {
  import opened Ascii
  import opened Places

  /** A node's range of records, or the sentinel the source writes as first == -1. */
  datatype IdxRange = Unset | Range(first: nat, second: nat)

  datatype TrieNode = TrieNode(c: char, next: seq<TrieNode>, idxRange: IdxRange)

  /** tolower(places[i].cityName[depth]), with NUL at the end of the name. */
  function Label(places: seq<CityRecord>, i: nat, depth: nat): char
    requires i < |places|
  {
    CharAt(places[i].cityName, depth)
  }

  /** The end of the maximal run of records that start at fm and share their label at depth. */
  function RunEnd(places: seq<CityRecord>, fm: nat, to: nat, depth: nat): (r: nat)
    requires fm < to <= |places|
    ensures fm < r <= to
    ensures forall i | fm <= i < r :: Label(places, i, depth) == Label(places, fm, depth)
    ensures r < to ==> Label(places, r, depth) != Label(places, fm, depth)
  {
    RunEndFrom(places, fm, fm + 1, to, depth)
  }

  function RunEndFrom(places: seq<CityRecord>, fm: nat, i: nat, to: nat, depth: nat): (r: nat)
    requires fm < i <= to <= |places|
    requires forall k | fm <= k < i :: Label(places, k, depth) == Label(places, fm, depth)
    ensures i <= r <= to
    ensures forall k | fm <= k < r :: Label(places, k, depth) == Label(places, fm, depth)
    ensures r < to ==> Label(places, r, depth) != Label(places, fm, depth)
    decreases (to as int) - (i as int)
  {
    if i == to || Label(places, i, depth) != Label(places, fm, depth) then i
    else RunEndFrom(places, fm, i + 1, to, depth)
  }

  /** The starts of the consecutive maximal runs of [b, e) at depth, followed by e. */
  function RunBounds(places: seq<CityRecord>, b: nat, e: nat, depth: nat): (bounds: seq<nat>)
    requires b <= e <= |places|
    ensures |bounds| >= 1 && bounds[0] == b && bounds[|bounds| - 1] == e
    ensures forall k | 0 <= k < |bounds| :: b <= bounds[k] <= e
    ensures forall j, k | 0 <= j < k < |bounds| :: bounds[j] < bounds[k]
    ensures forall k | 0 <= k < |bounds| - 1 :: bounds[k] < e
    decreases e - b
  {
    if b == e then [e] else [b] + RunBounds(places, RunEnd(places, b, e, depth), e, depth)
  }

  /** Where a node's children begin: after its own range, if it has one. */
  function ChildrenStart(node: TrieNode, b: nat): nat {
    if node.idxRange.Range? then node.idxRange.second else b
  }

  /**
   * The invariant construct establishes for a node built over [b, e) at
   * depth |path|: every record there starts with path (lowercased); the
   * node's range is set exactly when some name ends at this depth and then
   * holds exactly those records, first in the run; the remaining records
   * split into consecutive runs, one per child, each child labelled with its
   * run's character and covering that run one level deeper.
   */
  ghost predicate Covers(places: seq<CityRecord>, node: TrieNode, b: nat, e: nat, path: string)
    decreases node
  {
    && b <= e <= |places|
    && (forall i | b <= i < e :: path <= Lower(places[i].cityName))
    && (node.idxRange.Range? ==> node.idxRange.first == b < node.idxRange.second <= e)
    && (forall i | b <= i < e ::
          (node.idxRange.Range? && i < node.idxRange.second) <==> |places[i].cityName| == |path|)
    && var bounds := RunBounds(places, ChildrenStart(node, b), e, |path|);
    && |node.next| == |bounds| - 1
    && forall k | 0 <= k < |node.next| ::
         && node.next[k].c == Label(places, bounds[k], |path|)
         && Covers(places, node.next[k], bounds[k], bounds[k + 1], path + [node.next[k].c])
  }

  /** Children strictly ascending by label, which is what lower_bound relies on. */
  ghost predicate Ascending(next: seq<TrieNode>) {
    forall j, k | 0 <= j < k < |next| :: next[j].c < next[k].c
  }

  /** Children strictly ascending by label, at every node: what lower_bound over node.next needs. */
  ghost predicate Ordered(node: TrieNode)
    decreases node
  {
    && Ascending(node.next)
    && (forall k | 0 <= k < |node.next| :: Ordered(node.next[k]))
  }

  /** An upper bound on the names' lengths, which bounds the depth of recursion. */
  function MaxNameLength(places: seq<CityRecord>): (m: nat)
    ensures forall i | 0 <= i < |places| :: |places[i].cityName| <= m
  {
    if places == [] then 0
    else
      var m := MaxNameLength(places[1..]);
      assert forall i | 1 <= i < |places| :: places[i] == places[1..][i - 1];
      if |places[0].cityName| > m then |places[0].cityName| else m
  }

  /**
   * endOfSameLetterRange: the first index after fm whose label at depth
   * differs from fm's, or to when there is none.
   */
  method EndOfSameLetterRange(places: seq<CityRecord>, fm: nat, to: nat, depth: nat) returns (r: nat)
    requires fm < to <= |places|
    requires forall i | fm <= i < to :: depth <= |places[i].cityName|
    ensures fm < r <= to
    ensures forall i | fm <= i < r :: Label(places, i, depth) == Label(places, fm, depth)
    ensures r < to ==> Label(places, r, depth) != Label(places, fm, depth)
    ensures r == RunEnd(places, fm, to, depth)
  {
    var c := CharAt(places[fm].cityName, depth);
    for i := fm + 1 to to
      invariant forall k | fm <= k < i :: Label(places, k, depth) == c
    {
      if CharAt(places[i].cityName, depth) != c {
        return i;
      }
    }
    return to;
  }

  /** In a sorted store, two records sharing the prefix p with different labels after it are in label order. */
  lemma LabelsAscend(places: seq<CityRecord>, i: nat, j: nat, p: string)
    requires Sorted(places) && i <= j < |places|
    requires p <= Lower(places[i].cityName) && p <= Lower(places[j].cityName)
    requires Label(places, i, |p|) != Label(places, j, |p|)
    ensures Label(places, i, |p|) < Label(places, j, |p|)
  {
    CharAtMonotone(places, i, j, p);
  }

  /** A record whose label at |p| is the character ch (not the end) starts with p + [ch]. */
  lemma ExtendPrefix(s: string, p: string, ch: char)
    requires p <= Lower(s) && CharAt(s, |p|) == ch && ch != NUL
    ensures p + [ch] <= Lower(s)
  {
    assert Lower(s)[..|p| + 1] == Lower(s)[..|p|] + [ch];
  }

  /** The end of the run that starts at starts[k]: the next start, or upTo after the last one. */
  function RunStop(starts: seq<nat>, upTo: nat, k: nat): nat
    requires k < |starts|
  {
    if k + 1 < |starts| then starts[k + 1] else upTo
  }

  /**
   * The children built so far: child k is labelled with the character of the
   * run that starts at starts[k] and covers that run, which ends where the
   * next one starts (upTo for the last).
   */
  ghost predicate ChildrenCover(places: seq<CityRecord>, next: seq<TrieNode>, starts: seq<nat>, upTo: nat, path: string)
  {
    && |starts| == |next|
    && upTo <= |places|
    && (forall k | 0 <= k < |starts| :: starts[k] < RunStop(starts, upTo, k) <= upTo)
    && forall k | 0 <= k < |next| ::
         && next[k].c == Label(places, starts[k], |path|)
         && Covers(places, next[k], starts[k], RunStop(starts, upTo, k), path + [next[k].c])
  }

  lemma ChildrenCoverAppend(places: seq<CityRecord>, next: seq<TrieNode>, starts: seq<nat>, idx: nat,
                            nextEnd: nat, path: string, child: TrieNode)
    requires ChildrenCover(places, next, starts, idx, path)
    requires idx < nextEnd <= |places|
    requires child.c == Label(places, idx, |path|)
    requires Covers(places, child, idx, nextEnd, path + [child.c])
    ensures ChildrenCover(places, next + [child], starts + [idx], nextEnd, path)
  {
    var next', starts' := next + [child], starts + [idx];
    forall k | 0 <= k < |next'|
      ensures starts'[k] < RunStop(starts', nextEnd, k) <= nextEnd
      ensures next'[k].c == Label(places, starts'[k], |path|)
      ensures Covers(places, next'[k], starts'[k], RunStop(starts', nextEnd, k), path + [next'[k].c])
    {
      AppendedAt(next, starts, child, idx, nextEnd, k);
    }
  }

  /** Entry k of the children and the run starts once one more child is appended. */
  lemma AppendedAt(next: seq<TrieNode>, starts: seq<nat>, child: TrieNode, idx: nat, nextEnd: nat, k: nat)
    requires |next| == |starts| && k <= |next|
    ensures k < |next| ==>
      && (next + [child])[k] == next[k] && (starts + [idx])[k] == starts[k]
      && RunStop(starts + [idx], nextEnd, k) == RunStop(starts, idx, k)
    ensures k == |next| ==>
      (next + [child])[k] == child && (starts + [idx])[k] == idx && RunStop(starts + [idx], nextEnd, k) == nextEnd
  {
  }

  /**
   * The runs of [s, end) at depth begin at the indices in starts, in order,
   * and the next run begins at idx.
   */
  ghost predicate RunsFrom(places: seq<CityRecord>, s: nat, idx: nat, end: nat, depth: nat, starts: seq<nat>)
    decreases |starts|
  {
    if starts == [] then s == idx
    else
      && starts[0] == s < end <= |places|
      && RunsFrom(places, RunEnd(places, s, end, depth), idx, end, depth, starts[1..])
  }

  lemma {:induction false} RunsFromStep(places: seq<CityRecord>, s: nat, idx: nat, end: nat, depth: nat, starts: seq<nat>)
    requires RunsFrom(places, s, idx, end, depth, starts)
    requires idx < end <= |places|
    ensures RunsFrom(places, s, RunEnd(places, idx, end, depth), end, depth, starts + [idx])
    decreases |starts|
  {
    if starts != [] {
      assert (starts + [idx])[1..] == starts[1..] + [idx];
      RunsFromStep(places, RunEnd(places, s, end, depth), idx, end, depth, starts[1..]);
    }
  }

  lemma {:induction false} RunsFromComplete(places: seq<CityRecord>, s: nat, end: nat, depth: nat, starts: seq<nat>)
    requires s <= end <= |places|
    requires RunsFrom(places, s, end, end, depth, starts)
    ensures RunBounds(places, s, end, depth) == starts + [end]
    decreases |starts|
  {
    if starts != [] {
      RunsFromComplete(places, RunEnd(places, s, end, depth), end, depth, starts[1..]);
    }
  }

  /**
   * The state of construct's loop over [begin, end) after the records before
   * idx have been handled: [begin, split) is the node's own range (unset while
   * empty), the runs of [split, idx) have become the children so far, in
   * ascending label order, and the run that starts at idx comes after them.
   */
  ghost predicate Built(places: seq<CityRecord>, begin: nat, idx: nat, end: nat, path: string,
                        node: TrieNode, split: nat, starts: seq<nat>)
  {
    && BuiltRange(places, begin, idx, end, path, node.idxRange, split)
    && BuiltChildren(places, idx, end, path, node.next, split, starts)
    && BuiltOrder(places, begin, idx, end, path, node.next)
  }

  /** The node's own range holds the names of [begin, idx) that end at depth |path|. */
  ghost predicate BuiltRange(places: seq<CityRecord>, begin: nat, idx: nat, end: nat, path: string,
                             idxRange: IdxRange, split: nat)
  {
    && begin <= split <= idx <= end <= |places|
    && (forall i | begin <= i < end :: path <= Lower(places[i].cityName))
    && idxRange == (if split == begin then Unset else Range(begin, split))
    && (forall i | begin <= i < idx :: i < split <==> |places[i].cityName| == |path|)
  }

  /** The children so far cover the runs of [split, idx), which start at starts. */
  ghost predicate BuiltChildren(places: seq<CityRecord>, idx: nat, end: nat, path: string,
                                next: seq<TrieNode>, split: nat, starts: seq<nat>)
  {
    && RunsFrom(places, split, idx, end, |path|, starts)
    && (starts == [] <==> idx == split)
    && ChildrenCover(places, next, starts, idx, path)
  }

  /**
   * The children so far are ordered, ascending by label and below the label
   * of the run at idx, which is not the end of a name unless idx is begin.
   */
  ghost predicate BuiltOrder(places: seq<CityRecord>, begin: nat, idx: nat, end: nat, path: string,
                             next: seq<TrieNode>)
  {
    && end <= |places|
    && (forall j, k | 0 <= j < k < |next| :: next[j].c < next[k].c)
    && (forall k | 0 <= k < |next| :: Ordered(next[k]))
    && (idx < end ==> forall k | 0 <= k < |next| :: next[k].c < Label(places, idx, |path|))
    && (begin < idx < end ==> Label(places, idx, |path|) != NUL)
  }

  lemma BuiltStart(places: seq<CityRecord>, begin: nat, end: nat, path: string, c: char)
    requires begin <= end <= |places|
    requires forall i | begin <= i < end :: path <= Lower(places[i].cityName)
    ensures Built(places, begin, begin, end, path, TrieNode(c, [], Unset), begin, [])
  {
  }

  /**
   * The run at idx: all its records carry idx's label; when that label is
   * not the end of the name, they all go on with it after path.
   */
  lemma RunFacts(places: seq<CityRecord>, idx: nat, end: nat, path: string)
    requires NulFree(places) && idx < end <= |places|
    requires forall i | idx <= i < end :: path <= Lower(places[i].cityName)
    ensures var ch, nextEnd := Label(places, idx, |path|), RunEnd(places, idx, end, |path|);
      && (forall i | idx <= i < nextEnd :: ch == NUL <==> |places[i].cityName| == |path|)
      && (ch != NUL ==> |path| < |places[idx].cityName|)
      && (ch != NUL ==> forall i | idx <= i < nextEnd :: path + [ch] <= Lower(places[i].cityName))
  {
    var ch, nextEnd := Label(places, idx, |path|), RunEnd(places, idx, end, |path|);
    forall i | idx <= i < nextEnd
      ensures ch == NUL <==> |places[i].cityName| == |path|
      ensures ch != NUL ==> path + [ch] <= Lower(places[i].cityName)
    {
      assert Label(places, i, |path|) == ch;
      assert |Lower(places[i].cityName)| >= |path|;
      if ch != NUL {
        ExtendPrefix(places[i].cityName, path, ch);
      }
    }
  }

  /** The run at idx is the names that end here: it becomes the node's range. */
  lemma BuiltEndOfNames(places: seq<CityRecord>, begin: nat, idx: nat, end: nat, path: string,
                        node: TrieNode, split: nat, starts: seq<nat>)
    requires Sorted(places) && NulFree(places)
    requires Built(places, begin, idx, end, path, node, split, starts)
    requires idx < end && Label(places, idx, |path|) == NUL
    ensures var nextEnd := RunEnd(places, idx, end, |path|);
      Built(places, begin, nextEnd, end, path, node.(idxRange := Range(idx, nextEnd)), nextEnd, starts)
  {
    var nextEnd := RunEnd(places, idx, end, |path|);
    RunFacts(places, idx, end, path);
    if nextEnd < end {
      LabelsAscend(places, idx, nextEnd, path);
    }
  }

  /** The run at idx goes on with a character: child becomes the node's next child. */
  lemma BuiltAddChild(places: seq<CityRecord>, begin: nat, idx: nat, end: nat, path: string,
                      node: TrieNode, split: nat, starts: seq<nat>, child: TrieNode)
    requires Sorted(places) && NulFree(places)
    requires Built(places, begin, idx, end, path, node, split, starts)
    requires idx < end && Label(places, idx, |path|) != NUL
    requires child.c == Label(places, idx, |path|) && Ordered(child)
    requires Covers(places, child, idx, RunEnd(places, idx, end, |path|), path + [child.c])
    ensures var nextEnd := RunEnd(places, idx, end, |path|);
      Built(places, begin, nextEnd, end, path, node.(next := node.next + [child]), split, starts + [idx])
  {
    var nextEnd := RunEnd(places, idx, end, |path|);
    var next := node.next + [child];
    AddChildRange(places, begin, idx, end, path, node.idxRange, split);
    AddChildChildren(places, idx, end, path, node.next, split, starts, child);
    AddChildOrder(places, begin, idx, end, path, node.next, child);
    assert node.(next := next).idxRange == node.idxRange;
  }

  lemma AddChildRange(places: seq<CityRecord>, begin: nat, idx: nat, end: nat, path: string,
                      idxRange: IdxRange, split: nat)
    requires NulFree(places)
    requires BuiltRange(places, begin, idx, end, path, idxRange, split)
    requires idx < end && Label(places, idx, |path|) != NUL
    ensures BuiltRange(places, begin, RunEnd(places, idx, end, |path|), end, path, idxRange, split)
  {
    RunFacts(places, idx, end, path);
  }

  lemma AddChildChildren(places: seq<CityRecord>, idx: nat, end: nat, path: string,
                         next: seq<TrieNode>, split: nat, starts: seq<nat>, child: TrieNode)
    requires BuiltChildren(places, idx, end, path, next, split, starts)
    requires idx < end <= |places|
    requires child.c == Label(places, idx, |path|)
    requires Covers(places, child, idx, RunEnd(places, idx, end, |path|), path + [child.c])
    ensures BuiltChildren(places, RunEnd(places, idx, end, |path|), end, path, next + [child], split, starts + [idx])
  {
    var nextEnd := RunEnd(places, idx, end, |path|);
    ChildrenCoverAppend(places, next, starts, idx, nextEnd, path, child);
    RunsFromStep(places, split, idx, end, |path|, starts);
  }

  lemma AddChildOrder(places: seq<CityRecord>, begin: nat, idx: nat, end: nat, path: string,
                      next: seq<TrieNode>, child: TrieNode)
    requires Sorted(places)
    requires BuiltOrder(places, begin, idx, end, path, next)
    requires begin <= idx < end
    requires forall i | idx <= i < end :: path <= Lower(places[i].cityName)
    requires child.c == Label(places, idx, |path|) && Ordered(child)
    ensures BuiltOrder(places, begin, RunEnd(places, idx, end, |path|), end, path, next + [child])
  {
    var nextEnd := RunEnd(places, idx, end, |path|);
    var next' := next + [child];
    if nextEnd < end {
      LabelsAscend(places, idx, nextEnd, path);
    }
    assert forall k | 0 <= k < |next| :: next'[k] == next[k];
  }

  /** Once every run is handled, the node covers [begin, end). */
  lemma BuiltDone(places: seq<CityRecord>, begin: nat, end: nat, path: string,
                  node: TrieNode, split: nat, starts: seq<nat>)
    requires Built(places, begin, end, end, path, node, split, starts)
    ensures Covers(places, node, begin, end, path)
    ensures Ordered(node)
  {
    DoneCovers(places, begin, end, path, node, split, starts);
  }

  lemma DoneCovers(places: seq<CityRecord>, begin: nat, end: nat, path: string,
                   node: TrieNode, split: nat, starts: seq<nat>)
    requires BuiltRange(places, begin, end, end, path, node.idxRange, split)
    requires BuiltChildren(places, end, end, path, node.next, split, starts)
    ensures Covers(places, node, begin, end, path)
  {
    var bounds := RunBounds(places, ChildrenStart(node, begin), end, |path|);
    RunsFromComplete(places, split, end, |path|, starts);
    forall k | 0 <= k < |node.next|
      ensures node.next[k].c == Label(places, bounds[k], |path|)
      ensures Covers(places, node.next[k], bounds[k], bounds[k + 1], path + [node.next[k].c])
    {
      RunStopAt(starts, end, k);
    }
  }

  /** The bounds starts + [upTo] around run k: its start, and where it stops. */
  lemma RunStopAt(starts: seq<nat>, upTo: nat, k: nat)
    requires k < |starts|
    ensures (starts + [upTo])[k] == starts[k] && (starts + [upTo])[k + 1] == RunStop(starts, upTo, k)
  {
  }

  /**
   * construct: builds the node labelled c for the sorted records [begin, end),
   * all starting with path, by walking the runs at depth |path| left to right.
   * The run of names that end here becomes the node's range, every other run a
   * child built one level deeper.
   */
  method Construct(places: seq<CityRecord>, begin: nat, end: nat, depth: nat, ghost path: string, c: char)
    returns (node: TrieNode)
    requires Sorted(places) && NulFree(places)
    requires begin <= end <= |places| && |path| == depth
    requires forall i | begin <= i < end :: path <= Lower(places[i].cityName)
    ensures node.c == c
    ensures Covers(places, node, begin, end, path)
    ensures Ordered(node)
    decreases MaxNameLength(places) - depth
  {
    node := TrieNode(c, [], Unset);
    ghost var split := begin;
    ghost var starts: seq<nat> := [];
    BuiltStart(places, begin, end, path, c);
    var idx: nat := begin;
    while idx < end
      invariant idx <= end && node.c == c
      invariant Built(places, begin, idx, end, path, node, split, starts)
      decreases end - idx
    {
      var nextEnd := EndOfSameLetterRange(places, idx, end, depth);
      var ch := CharAt(places[idx].cityName, depth);
      if ch == NUL {
        BuiltEndOfNames(places, begin, idx, end, path, node, split, starts);
        node := node.(idxRange := Range(idx, nextEnd));
        split := nextEnd;
      } else {
        RunFacts(places, idx, end, path);
        var child := Construct(places, idx, nextEnd, depth + 1, path + [ch], ch);
        BuiltAddChild(places, begin, idx, end, path, node, split, starts, child);
        node := node.(next := node.next + [child]);
        starts := starts + [idx];
      }
      idx := nextEnd;
    }
    assert idx == end;
    BuiltDone(places, begin, end, path, node, split, starts);
  }
}
