/**
 * The server-side whiteboard merge of `updateWhiteboard` (convex/files.tsx).
 *
 * The merge fills a JavaScript `Map` keyed by element id: first with every
 * stored element, then with every incoming element whose normalised version
 * is at least the one already in the map. The merged element list is the
 * map's values in insertion order. Attached files are merged by object
 * spread, incoming entries winning.
 *
 * The reference definition `MergedElements` says, key by key, which element
 * the map ends up holding and in which order the keys were first inserted;
 * the method `MergeElements` runs the two loops of the source and is proved
 * to compute it.
 */
module WhiteboardMerge {
  import opened Wrappers

  /** An attached binary asset (a pasted image), carried opaquely. */
  type Asset = string

  /**
   * One drawing element: its `id`, its `version` field (None when the field
   * is missing or null), and every other field of the object, carried as is.
   */
  datatype Element = Element(id: string, version: Option<int>, payload: string)

  /**
   * What parsing a whiteboard string yields, as far as the merge looks at it.
   *   NoScene  - `null`, or any parsed value that has no truthy `elements`
   *              property and is not an array;
   *   Legacy   - the older form: a bare array of elements;
   *   Snapshot - the current form `{elements, files}`; `files` may be absent.
   */
  datatype Scene =
    | NoScene
    | Legacy(items: seq<Element>)
    | Snapshot(elements: seq<Element>, files: Option<map<string, Asset>>)

  /** The normalised version `(el.version || 0)`: a missing version reads as 0. */
  function Ver(e: Element): int {
    match e.version
    case Some(v) => v
    case None => 0
  }

  function Max(a: int, b: int): int {
    if a < b then b else a
  }

  /** The ids of a list of elements, in list order. */
  function Ids(s: seq<Element>): (r: seq<string>)
    ensures |r| == |s|
    ensures forall i :: 0 <= i < |s| ==> r[i] == s[i].id
  {
    seq(|s|, i requires 0 <= i < |s| => s[i].id)
  }

  /** No value occurs twice in `s`. */
  predicate NoDup<T(==)>(s: seq<T>) {
    forall i, j :: 0 <= i < j < |s| ==> s[i] != s[j]
  }

  /**
   * The keys of a JavaScript `Map` after `set` was called with the values of
   * `s` in order: each value once, at the place of its first occurrence.
   */
  function Dedup<T(==,!new)>(s: seq<T>): (r: seq<T>)
    ensures NoDup(r)
    ensures forall x :: x in r <==> x in s
  {
    if s == [] then []
    else
      var d := Dedup(s[..|s| - 1]);
      assert s == s[..|s| - 1] + [s[|s| - 1]];
      if s[|s| - 1] in d then d else d + [s[|s| - 1]]
  }

  /** The values of `s` that do not occur in `seen`, in order. */
  function Unseen<T(==,!new)>(s: seq<T>, seen: seq<T>): (r: seq<T>)
    ensures forall x :: x in r <==> x in s && x !in seen
  {
    if s == [] then []
    else
      var u := Unseen(s[..|s| - 1], seen);
      assert s == s[..|s| - 1] + [s[|s| - 1]];
      if s[|s| - 1] in seen then u else u + [s[|s| - 1]]
  }

  /**
   * A JavaScript `Map` from element id to element: its entries, and its keys
   * in the order in which they were first set.
   */
  datatype ElementMap = ElementMap(entries: map<string, Element>, order: seq<string>) {

    /** `map.get(k)`: the entry for `k`, or None. */
    function Get(k: string): Option<Element> {
      if k in entries then Some(entries[k]) else None
    }

    /** `map.set(e.id, e)`: a new key goes to the end of the order, a key already set keeps its place. */
    function Set(e: Element): ElementMap {
      ElementMap(entries[e.id := e], if e.id in entries then order else order + [e.id])
    }

    /** The keys of the entries are exactly the keys of the order. */
    ghost predicate Valid() {
      forall k :: k in entries <==> k in order
    }

    /** `Array.from(map.values())`: the entries in key order. */
    function Values(): seq<Element>
      requires forall i :: 0 <= i < |order| ==> order[i] in entries
    {
      seq(|order|, i requires 0 <= i < |order| => entries[order[i]])
    }
  }

  /**
   * The entry the seeding loop (lines 59-61) leaves for `k` after running
   * over `s`: every `set` overwrites, so it is the last element with that id.
   */
  function LastWith(s: seq<Element>, k: string): (r: Option<Element>)
    ensures r.Some? <==> k in Ids(s)
    ensures r.Some? ==> r.value.id == k && r.value in s
  {
    if s == [] then None
    else
      assert Ids(s) == Ids(s[..|s| - 1]) + [s[|s| - 1].id];
      if s[|s| - 1].id == k then Some(s[|s| - 1]) else LastWith(s[..|s| - 1], k)
  }

  /**
   * One step of the second loop (lines 63-67) for the id of `e`: the entry
   * is replaced when there is none, or when the incoming version is greater
   * than or equal to the one held.
   */
  function Admit(entry: Option<Element>, e: Element): (r: Option<Element>)
    ensures r == Some(e) || r == entry
  {
    if entry.None? || Ver(e) >= Ver(entry.value) then Some(e) else entry
  }

  /**
   * The entry for `k` after the second loop has run over `inc`, starting
   * from the entry `cur` that the seeding loop left. Elements of `inc` with
   * another id do not touch it.
   */
  function Resolve(cur: Option<Element>, inc: seq<Element>, k: string): (r: Option<Element>)
    ensures r.Some? <==> cur.Some? || k in Ids(inc)
    ensures r.Some? ==> r == cur || (r.value in inc && r.value.id == k)
  {
    if inc == [] then cur
    else
      var e := inc[|inc| - 1];
      var prev := Resolve(cur, inc[..|inc| - 1], k);
      assert Ids(inc) == Ids(inc[..|inc| - 1]) + [e.id];
      if e.id == k then Admit(prev, e) else prev
  }

  /** The element the merged map holds for `k`. */
  function Winner(stored: seq<Element>, incoming: seq<Element>, k: string): Option<Element> {
    Resolve(LastWith(stored, k), incoming, k)
  }

  /** The insertion order of the merged map: stored ids first, then new incoming ids. */
  function MergeOrder(stored: seq<Element>, incoming: seq<Element>): seq<string> {
    Dedup(Ids(stored) + Ids(incoming))
  }

  lemma WinnerPresent(stored: seq<Element>, incoming: seq<Element>, k: string)
    requires k in Ids(stored) + Ids(incoming)
    ensures Winner(stored, incoming, k).Some?
    ensures Winner(stored, incoming, k).value.id == k
  {
  }

  /**
   * Reference definition of the merged element list `Array.from(elementMap.values())`
   * (line 74): for each key in insertion order, the element the map holds for it.
   */
  function MergedElements(stored: seq<Element>, incoming: seq<Element>): seq<Element> {
    var order := MergeOrder(stored, incoming);
    seq(|order|, i requires 0 <= i < |order| =>
      WinnerPresent(stored, incoming, order[i]);
      Winner(stored, incoming, order[i]).value)
  }

  /** `{ ...existingData.files, ...newData.files }` (line 71); spreading a missing object adds nothing. */
  function MergeFiles(stored: Option<map<string, Asset>>, incoming: Option<map<string, Asset>>): map<string, Asset> {
    stored.GetOr(map[]) + incoming.GetOr(map[])
  }

  /**
   * The decision of lines 56 and 82: the two snapshots are merged only when
   * both have an `elements` list (an empty list included); otherwise None,
   * and the incoming text is stored verbatim.
   */
  function Merge(existing: Scene, incoming: Scene): (r: Option<Scene>)
    ensures r.Some? <==> existing.Snapshot? && incoming.Snapshot?
    ensures r.Some? ==> r.value.Snapshot? && r.value.files.Some?
  {
    if existing.Snapshot? && incoming.Snapshot? then
      Some(Snapshot(MergedElements(existing.elements, incoming.elements),
                    Some(MergeFiles(existing.files, incoming.files))))
    else None
  }

  lemma IdsSnoc(s: seq<Element>, e: Element)
    ensures Ids(s + [e]) == Ids(s) + [e.id]
  {
  }

  lemma DedupSnoc<T(!new)>(s: seq<T>, x: T)
    ensures Dedup(s + [x]) == if x in Dedup(s) then Dedup(s) else Dedup(s) + [x]
  {
    assert (s + [x])[..|s + [x]| - 1] == s;
  }

  lemma LastWithSnoc(s: seq<Element>, e: Element, k: string)
    ensures LastWith(s + [e], k) == if e.id == k then Some(e) else LastWith(s, k)
  {
    assert (s + [e])[..|s + [e]| - 1] == s;
  }

  lemma ResolveSnoc(cur: Option<Element>, inc: seq<Element>, e: Element, k: string)
    ensures Resolve(cur, inc + [e], k) == if e.id == k then Admit(Resolve(cur, inc, k), e) else Resolve(cur, inc, k)
  {
    assert (inc + [e])[..|inc + [e]| - 1] == inc;
  }

  /** The map after the seeding loop has run over `s` (lines 58-61). */
  ghost function SeedAll(s: seq<Element>): ElementMap {
    if s == [] then ElementMap(map[], [])
    else SeedAll(s[..|s| - 1]).Set(s[|s| - 1])
  }

  /** The map after the second loop has run over `inc` (lines 62-68). */
  ghost function AdmitAll(stored: seq<Element>, inc: seq<Element>): ElementMap {
    if inc == [] then SeedAll(stored)
    else
      var m, e := AdmitAll(stored, inc[..|inc| - 1]), inc[|inc| - 1];
      var existing := m.Get(e.id);
      if existing.None? || Ver(e) >= Ver(existing.value) then m.Set(e) else m
  }

  lemma PrefixSnoc(s: seq<Element>, i: int)
    requires 0 <= i < |s|
    ensures s[..i + 1] == s[..i] + [s[i]]
  {
  }

  /** After seeding over `s`, the map's order is the first-occurrence order of the ids of `s`, and each entry is the last element with its id. */
  lemma {:induction false} SeedAllHolds(s: seq<Element>)
    ensures SeedAll(s).Valid()
    ensures SeedAll(s).order == Dedup(Ids(s))
    ensures forall k :: SeedAll(s).Get(k) == LastWith(s, k)
  {
    if s != [] {
      var p, e := s[..|s| - 1], s[|s| - 1];
      assert s == p + [e];
      SeedAllHolds(p);
      IdsSnoc(p, e);
      DedupSnoc(Ids(p), e.id);
      forall k
        ensures SeedAll(s).Get(k) == LastWith(s, k)
      {
        LastWithSnoc(p, e, k);
      }
    }
  }

  /** After the second loop over `inc`, the order has the new ids of `inc` appended and each entry is `Resolve`'s. */
  lemma {:induction false} AdmitAllHolds(stored: seq<Element>, inc: seq<Element>)
    ensures AdmitAll(stored, inc).Valid()
    ensures AdmitAll(stored, inc).order == Dedup(Ids(stored) + Ids(inc))
    ensures forall k :: AdmitAll(stored, inc).Get(k) == Resolve(LastWith(stored, k), inc, k)
  {
    if inc == [] {
      SeedAllHolds(stored);
      assert Ids(stored) + Ids(inc) == Ids(stored);
    } else {
      var p, e := inc[..|inc| - 1], inc[|inc| - 1];
      assert inc == p + [e];
      AdmitAllHolds(stored, p);
      IdsSnoc(p, e);
      assert Ids(stored) + Ids(inc) == (Ids(stored) + Ids(p)) + [e.id];
      DedupSnoc(Ids(stored) + Ids(p), e.id);
      forall k
        ensures AdmitAll(stored, inc).Get(k) == Resolve(LastWith(stored, k), inc, k)
      {
        ResolveSnoc(LastWith(stored, k), p, e, k);
      }
    }
  }

  /** Once both loops are done, reading the map out gives the reference merge. */
  lemma ValuesAreMerged(stored: seq<Element>, incoming: seq<Element>)
    ensures var m := AdmitAll(stored, incoming);
      && (forall i :: 0 <= i < |m.order| ==> m.order[i] in m.entries)
      && m.Values() == MergedElements(stored, incoming)
  {
    var m := AdmitAll(stored, incoming);
    AdmitAllHolds(stored, incoming);
    assert forall i :: 0 <= i < |m.order| ==> m.order[i] in m.entries by {
      forall i | 0 <= i < |m.order| ensures m.order[i] in m.entries {
        assert m.order[i] in m.order;
      }
    }
    var spec := MergedElements(stored, incoming);
    forall i | 0 <= i < |m.order|
      ensures m.Values()[i] == spec[i]
    {
      assert m.Get(m.order[i]) == Winner(stored, incoming, m.order[i]);
    }
  }

  /**
   * The two loops of lines 58-68 followed by line 74: fill an id-keyed map
   * with the stored elements, let each incoming element replace the entry
   * unless the entry holds a strictly higher version, and read the values
   * out in insertion order.
   */
  method MergeElements(stored: seq<Element>, incoming: seq<Element>) returns (merged: seq<Element>)
    ensures merged == MergedElements(stored, incoming)
  {
    var elementMap := ElementMap(map[], []);
    for i := 0 to |stored|
      invariant elementMap == SeedAll(stored[..i])
    {
      PrefixSnoc(stored, i);
      elementMap := elementMap.Set(stored[i]);
    }
    assert stored[..|stored|] == stored;
    for j := 0 to |incoming|
      invariant elementMap == AdmitAll(stored, incoming[..j])
    {
      var el := incoming[j];
      PrefixSnoc(incoming, j);
      var existing := elementMap.Get(el.id);
      if existing.None? || Ver(el) >= Ver(existing.value) {
        elementMap := elementMap.Set(el);
      }
    }
    assert incoming[..|incoming|] == incoming;
    ValuesAreMerged(stored, incoming);
    merged := elementMap.Values();
  }
}
