/**
 * What the whiteboard merge of `updateWhiteboard` guarantees, stated about
 * the reference definition `MergedElements` (which the loop method
 * `MergeElements` is proved to compute) and about `Merge`.
 */
module MergeProperties {
  import opened Wrappers
  import opened WhiteboardMerge

  // ----- Insertion order -------------------------------------------------

  /** A list that has no repeats is its own insertion order. */
  lemma {:induction false} DedupOfNoDup<T(!new)>(s: seq<T>)
    requires NoDup(s)
    ensures Dedup(s) == s
  {
    if s != [] {
      var p, x := s[..|s| - 1], s[|s| - 1];
      assert NoDup(p);
      DedupOfNoDup(p);
      assert x !in p by {
        forall i | 0 <= i < |p| ensures p[i] != x {
          assert s[i] == p[i];
        }
      }
      assert s == p + [x];
    }
  }

  /** Setting the keys of `a` and then those of `b`: the keys of `a` first, then the new keys of `b`. */
  lemma {:induction false} DedupAppend<T(!new)>(a: seq<T>, b: seq<T>)
    ensures Dedup(a + b) == Dedup(a) + Dedup(Unseen(b, a))
  {
    if b == [] {
      assert a + b == a;
      assert Dedup(a) + Dedup(Unseen(b, a)) == Dedup(a);
    } else {
      var b', x := b[..|b| - 1], b[|b| - 1];
      assert b == b' + [x];
      assert a + b == (a + b') + [x];
      DedupAppend(a, b');
      DedupAppendStep(a, b', x);
    }
  }

  lemma DedupAppendStep<T(!new)>(a: seq<T>, b: seq<T>, x: T)
    requires Dedup(a + b) == Dedup(a) + Dedup(Unseen(b, a))
    ensures Dedup((a + b) + [x]) == Dedup(a) + Dedup(Unseen(b + [x], a))
  {
    DedupSnoc(a + b, x);
    UnseenSnoc(b, a, x);
    var u := Unseen(b, a);
    if x in a || x in b {
      assert x in Dedup(a + b);
      if x !in a {
        assert x in Dedup(u);
        DedupSnoc(u, x);
      }
    } else {
      assert x !in Dedup(a + b);
      assert x !in Dedup(u);
      DedupSnoc(u, x);
      assert (Dedup(a) + Dedup(u)) + [x] == Dedup(a) + (Dedup(u) + [x]);
    }
  }

  lemma UnseenSnoc<T(!new)>(s: seq<T>, seen: seq<T>, x: T)
    ensures Unseen(s + [x], seen) == if x in seen then Unseen(s, seen) else Unseen(s, seen) + [x]
  {
    assert (s + [x])[..|s + [x]| - 1] == s;
  }

  lemma UnseenOfCovered<T(!new)>(s: seq<T>, seen: seq<T>)
    requires forall x :: x in s ==> x in seen
    ensures Unseen(s, seen) == []
  {
    if Unseen(s, seen) != [] {
      assert Unseen(s, seen)[0] in Unseen(s, seen);
    }
  }

  // ----- Lookups by id ---------------------------------------------------

  /** In a list with unique ids, the last element with the id of `s[i]` is `s[i]` itself. */
  lemma {:induction false} LastWithUnique(s: seq<Element>, i: int)
    requires NoDup(Ids(s))
    requires 0 <= i < |s|
    ensures LastWith(s, s[i].id) == Some(s[i])
  {
    var p := s[..|s| - 1];
    if i < |s| - 1 {
      assert Ids(s)[i] != Ids(s)[|s| - 1];
      assert NoDup(Ids(p)) by {
        forall a, b | 0 <= a < b < |p| ensures Ids(p)[a] != Ids(p)[b] {
          assert Ids(s)[a] != Ids(s)[b];
        }
      }
      LastWithUnique(p, i);
    }
  }

  /** Incoming elements with other ids never touch the entry for `k`. */
  lemma {:induction false} ResolveUntouched(cur: Option<Element>, inc: seq<Element>, k: string)
    requires k !in Ids(inc)
    ensures Resolve(cur, inc, k) == cur
  {
    if inc != [] {
      var p := inc[..|inc| - 1];
      IdsSnoc(p, inc[|inc| - 1]);
      assert inc == p + [inc[|inc| - 1]];
      ResolveUntouched(cur, p, k);
    }
  }

  /** When the incoming ids are unique, the entry for `inc[j].id` is decided by the one comparison with `inc[j]`. */
  lemma {:induction false} ResolveSingle(cur: Option<Element>, inc: seq<Element>, j: int)
    requires NoDup(Ids(inc))
    requires 0 <= j < |inc|
    ensures Resolve(cur, inc, inc[j].id) == Admit(cur, inc[j])
  {
    var p, e := inc[..|inc| - 1], inc[|inc| - 1];
    assert inc == p + [e];
    IdsSnoc(p, e);
    ResolveSnoc(cur, p, e, inc[j].id);
    assert NoDup(Ids(p)) by {
      forall a, b | 0 <= a < b < |p| ensures Ids(p)[a] != Ids(p)[b] {
        assert Ids(inc)[a] != Ids(inc)[b];
      }
    }
    if j == |inc| - 1 {
      assert e.id !in Ids(p) by {
        forall a | 0 <= a < |p| ensures Ids(p)[a] != e.id {
          assert Ids(inc)[a] != Ids(inc)[j];
        }
      }
      ResolveUntouched(cur, p, e.id);
    } else {
      assert Ids(inc)[j] != Ids(inc)[|inc| - 1];
      ResolveSingle(cur, p, j);
    }
  }

  /**
   * The entry for `k` after the second loop holds a version at least that of
   * the entry it started from and at least that of every incoming element
   * with id `k`.
   */
  lemma {:induction false} ResolveDominates(cur: Option<Element>, inc: seq<Element>, k: string)
    requires cur.Some? || k in Ids(inc)
    ensures cur.Some? ==> Ver(Resolve(cur, inc, k).value) >= Ver(cur.value)
    ensures forall j :: 0 <= j < |inc| && inc[j].id == k ==> Ver(inc[j]) <= Ver(Resolve(cur, inc, k).value)
  {
    if inc != [] {
      var p, e := inc[..|inc| - 1], inc[|inc| - 1];
      assert inc == p + [e];
      IdsSnoc(p, e);
      ResolveSnoc(cur, p, e, k);
      if cur.Some? || k in Ids(p) {
        ResolveDominates(cur, p, k);
      }
      forall j | 0 <= j < |inc| && inc[j].id == k
        ensures Ver(inc[j]) <= Ver(Resolve(cur, inc, k).value)
      {
        if j < |p| {
          assert p[j] == inc[j];
          assert k in Ids(p) by { assert Ids(p)[j] == k; }
        }
      }
    }
  }

  /** The highest normalised version among the elements of `inc` with id `k`; None when there is none. */
  function TopVer(inc: seq<Element>, k: string): (r: Option<int>)
    ensures r.None? <==> k !in Ids(inc)
  {
    if inc == [] then None
    else
      var e, rest := inc[|inc| - 1], TopVer(inc[..|inc| - 1], k);
      assert Ids(inc) == Ids(inc[..|inc| - 1]) + [e.id];
      if e.id != k then rest
      else if rest.None? then Some(Ver(e))
      else Some(Max(rest.value, Ver(e)))
  }

  /** The last element of `inc` with id `k` and normalised version `v`. */
  function LastOfVer(inc: seq<Element>, k: string, v: int): Option<Element> {
    if inc == [] then None
    else if inc[|inc| - 1].id == k && Ver(inc[|inc| - 1]) == v then Some(inc[|inc| - 1])
    else LastOfVer(inc[..|inc| - 1], k, v)
  }

  /**
   * Repeated incoming ids, in general: the entry for `k` after the second
   * loop stays as it was when it holds a version above every incoming
   * element with id `k`; otherwise it is the last incoming element with id
   * `k` that carries the highest of their versions.
   */
  lemma {:induction false} ResolveReachesTop(cur: Option<Element>, inc: seq<Element>, k: string)
    ensures TopVer(inc, k).None? ==> Resolve(cur, inc, k) == cur
    ensures TopVer(inc, k).Some? ==>
      var t := TopVer(inc, k).value;
      && LastOfVer(inc, k, t).Some?
      && LastOfVer(inc, k, t).value.id == k
      && Ver(LastOfVer(inc, k, t).value) == t
      && Resolve(cur, inc, k) == if cur.Some? && Ver(cur.value) > t then cur else LastOfVer(inc, k, t)
  {
    if inc != [] {
      var p, e := inc[..|inc| - 1], inc[|inc| - 1];
      ResolveReachesTop(cur, p, k);
    }
  }

  /** Running the second loop again over the same incoming list leaves every entry where it is. */
  lemma ResolveIdempotent(cur: Option<Element>, inc: seq<Element>, k: string)
    ensures Resolve(Resolve(cur, inc, k), inc, k) == Resolve(cur, inc, k)
  {
    var r := Resolve(cur, inc, k);
    ResolveReachesTop(cur, inc, k);
    ResolveReachesTop(r, inc, k);
  }

  // ----- Shape of the merged list ----------------------------------------

  /** The merged list holds, position by position, the winner for each key of the insertion order. */
  lemma MergedShape(stored: seq<Element>, incoming: seq<Element>)
    ensures var merged := MergedElements(stored, incoming);
      && Ids(merged) == MergeOrder(stored, incoming)
      && forall i :: 0 <= i < |merged| ==> Some(merged[i]) == Winner(stored, incoming, merged[i].id)
  {
    var merged, order := MergedElements(stored, incoming), MergeOrder(stored, incoming);
    forall i | 0 <= i < |order|
      ensures merged[i].id == order[i] && Some(merged[i]) == Winner(stored, incoming, order[i])
    {
      assert order[i] in order;
      WinnerPresent(stored, incoming, order[i]);
    }
  }

  /**
   * The ids of the merged elements are exactly the stored ids together with
   * the incoming ids, each once, in Map insertion order.
   */
  lemma MergedIds(stored: seq<Element>, incoming: seq<Element>)
    ensures NoDup(Ids(MergedElements(stored, incoming)))
    ensures forall k :: k in Ids(MergedElements(stored, incoming)) <==> k in Ids(stored) || k in Ids(incoming)
  {
    MergedShape(stored, incoming);
  }

  /** The element the merged list holds for `k` is the entry the map holds for `k`. */
  lemma MergedLookup(stored: seq<Element>, incoming: seq<Element>, k: string)
    ensures LastWith(MergedElements(stored, incoming), k) == Winner(stored, incoming, k)
  {
    var merged := MergedElements(stored, incoming);
    MergedShape(stored, incoming);
    if k in Ids(merged) {
      var i :| 0 <= i < |merged| && Ids(merged)[i] == k;
      LastWithUnique(merged, i);
    } else {
      assert k !in Ids(stored) + Ids(incoming);
    }
  }

  /**
   * Ordering: when the stored ids are unique, the merged list starts with
   * the stored ids in stored order (a replaced element keeps its position)
   * and continues with the new incoming ids in incoming order.
   */
  lemma MergedOrder(stored: seq<Element>, incoming: seq<Element>)
    requires NoDup(Ids(stored))
    ensures var ids := Ids(MergedElements(stored, incoming));
      && |stored| <= |ids|
      && ids[..|stored|] == Ids(stored)
      && ids[|stored|..] == Dedup(Unseen(Ids(incoming), Ids(stored)))
  {
    MergedShape(stored, incoming);
    DedupAppend(Ids(stored), Ids(incoming));
    DedupOfNoDup(Ids(stored));
  }

  // ----- Which element wins ------------------------------------------------

  /** A stored element whose id the incoming snapshot does not mention stays, unchanged, at its place. */
  lemma StoredOnlyKept(stored: seq<Element>, incoming: seq<Element>, i: int)
    requires NoDup(Ids(stored))
    requires 0 <= i < |stored|
    requires stored[i].id !in Ids(incoming)
    ensures var merged := MergedElements(stored, incoming); i < |merged| && merged[i] == stored[i]
  {
    MergedOrder(stored, incoming);
    MergedShape(stored, incoming);
    var merged := MergedElements(stored, incoming);
    assert Ids(merged)[i] == Ids(stored)[i];
    LastWithUnique(stored, i);
    ResolveUntouched(LastWith(stored, stored[i].id), incoming, stored[i].id);
  }

  /** An incoming element whose id is not stored is inserted as it is. */
  lemma IncomingOnlyInserted(stored: seq<Element>, incoming: seq<Element>, j: int)
    requires NoDup(Ids(incoming))
    requires 0 <= j < |incoming|
    requires incoming[j].id !in Ids(stored)
    ensures incoming[j] in MergedElements(stored, incoming)
    ensures LastWith(MergedElements(stored, incoming), incoming[j].id) == Some(incoming[j])
  {
    MergedLookup(stored, incoming, incoming[j].id);
    ResolveSingle(None, incoming, j);
  }

  /**
   * For an id both sides hold, the incoming element wins when its normalised
   * version is at least the stored one (ties go to incoming); otherwise the
   * stored element stays. Either way it sits at the stored element's place.
   */
  lemma SharedIdResolved(stored: seq<Element>, incoming: seq<Element>, i: int, j: int)
    requires NoDup(Ids(stored)) && NoDup(Ids(incoming))
    requires 0 <= i < |stored| && 0 <= j < |incoming|
    requires stored[i].id == incoming[j].id
    ensures var merged := MergedElements(stored, incoming);
      && i < |merged|
      && merged[i] == if Ver(incoming[j]) >= Ver(stored[i]) then incoming[j] else stored[i]
  {
    MergedOrder(stored, incoming);
    MergedShape(stored, incoming);
    var merged := MergedElements(stored, incoming);
    assert Ids(merged)[i] == Ids(stored)[i];
    LastWithUnique(stored, i);
    ResolveSingle(LastWith(stored, stored[i].id), incoming, j);
  }

  /** For an id both sides hold, the merged normalised version is the larger of the two. */
  lemma MergedVersionIsMax(stored: seq<Element>, incoming: seq<Element>, i: int, j: int)
    requires NoDup(Ids(stored)) && NoDup(Ids(incoming))
    requires 0 <= i < |stored| && 0 <= j < |incoming|
    requires stored[i].id == incoming[j].id
    ensures var merged := MergedElements(stored, incoming);
      i < |merged| && Ver(merged[i]) == Max(Ver(stored[i]), Ver(incoming[j]))
  {
    SharedIdResolved(stored, incoming, i, j);
  }

  /**
   * Version dominance, with no assumption on repeated ids: the merged element
   * for `k` is the stored entry for `k` or one of the incoming elements with
   * id `k`, and its normalised version is the largest among them. (The
   * seeding loop overwrites, so among repeated stored ids only the last one
   * takes part.)
   */
  lemma MergedVersionDominates(stored: seq<Element>, incoming: seq<Element>, k: string)
    requires k in Ids(stored) || k in Ids(incoming)
    ensures var w := LastWith(MergedElements(stored, incoming), k);
      && w.Some? && w.value.id == k
      && (w == LastWith(stored, k) || w.value in incoming)
      && (k in Ids(stored) ==> Ver(w.value) >= Ver(LastWith(stored, k).value))
      && forall j :: 0 <= j < |incoming| && incoming[j].id == k ==> Ver(incoming[j]) <= Ver(w.value)
  {
    MergedLookup(stored, incoming, k);
    ResolveDominates(LastWith(stored, k), incoming, k);
  }

  /** A merge never lowers the version of a stored element. */
  lemma MergeNeverLowersVersion(stored: seq<Element>, incoming: seq<Element>, i: int)
    requires NoDup(Ids(stored))
    requires 0 <= i < |stored|
    ensures var merged := MergedElements(stored, incoming);
      i < |merged| && merged[i].id == stored[i].id && Ver(merged[i]) >= Ver(stored[i])
  {
    MergedOrder(stored, incoming);
    MergedShape(stored, incoming);
    var merged := MergedElements(stored, incoming);
    assert Ids(merged)[i] == Ids(stored)[i];
    LastWithUnique(stored, i);
    ResolveDominates(LastWith(stored, stored[i].id), incoming, stored[i].id);
  }

  /** With nothing incoming, the merge path is still taken and the stored list comes back as it was. */
  lemma MergeNothingIncoming(stored: seq<Element>)
    requires NoDup(Ids(stored))
    ensures MergedElements(stored, []) == stored
    ensures forall f, g :: Merge(Snapshot(stored, f), Snapshot([], g)) == Some(Snapshot(stored, Some(MergeFiles(f, g))))
  {
    var merged := MergedElements(stored, []);
    MergedOrder(stored, []);
    forall i | 0 <= i < |stored| ensures merged[i] == stored[i] {
      StoredOnlyKept(stored, [], i);
    }
  }

  /** Into an empty stored list, the incoming list is taken as it is. */
  lemma MergeIntoEmpty(incoming: seq<Element>)
    requires NoDup(Ids(incoming))
    ensures MergedElements([], incoming) == incoming
  {
    var merged := MergedElements([], incoming);
    assert Ids(merged) == Ids(incoming) by {
      MergedShape([], incoming);
      assert Ids([]) + Ids(incoming) == Ids(incoming);
      DedupOfNoDup(Ids(incoming));
    }
    assert forall i :: 0 <= i < |merged| ==> Some(merged[i]) == Winner([], incoming, merged[i].id) by {
      MergedShape([], incoming);
    }
    forall j | 0 <= j < |incoming| ensures merged[j] == incoming[j] {
      assert merged[j].id == incoming[j].id by {
        assert Ids(merged)[j] == Ids(incoming)[j];
      }
      ResolveSingle(None, incoming, j);
    }
  }

  // ----- Files -----------------------------------------------------------

  /**
   * The merged files hold every stored and every incoming key and nothing
   * else; on a collision the incoming asset wins, and a missing side counts
   * as empty.
   */
  lemma MergedFilesUnion(stored: Option<map<string, Asset>>, incoming: Option<map<string, Asset>>)
    ensures var files, st, inc := MergeFiles(stored, incoming), stored.GetOr(map[]), incoming.GetOr(map[]);
      && files.Keys == st.Keys + inc.Keys
      && (forall x :: x in inc ==> files[x] == inc[x])
      && (forall x :: x in st && x !in inc ==> files[x] == st[x])
  {
  }

  // ----- The whole snapshot ------------------------------------------------

  /**
   * Sending the same snapshot again changes nothing: merging an incoming
   * snapshot into the result of merging it yields that result again, even
   * when ids repeat.
   */
  lemma MergeIdempotent(existing: Scene, incoming: Scene)
    requires existing.Snapshot? && incoming.Snapshot?
    ensures Merge(existing, incoming).Some?
    ensures Merge(Merge(existing, incoming).value, incoming) == Merge(existing, incoming)
  {
    var s, inc := existing.elements, incoming.elements;
    var merged := MergedElements(s, inc);
    MergedIds(s, inc);
    var again := MergedElements(merged, inc);
    assert MergeOrder(merged, inc) == Ids(merged) by {
      DedupAppend(Ids(merged), Ids(inc));
      DedupOfNoDup(Ids(merged));
      UnseenOfCovered(Ids(inc), Ids(merged));
    }
    MergedShape(merged, inc);
    MergedShape(s, inc);
    forall p | 0 <= p < |merged| ensures again[p] == merged[p] {
      var k := merged[p].id;
      LastWithUnique(merged, p);
      ResolveIdempotent(LastWith(s, k), inc, k);
    }
    assert |again| == |merged| by {
      assert Ids(again) == Ids(merged);
    }
    assert again == merged;
    var files := MergeFiles(existing.files, incoming.files);
    assert MergeFiles(Some(files), incoming.files) == files;
  }
}
