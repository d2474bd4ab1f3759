/**
 * The result window shared by hydration, attribute hydration, delete and
 * update queries: of the n matching references, in iteration order, the
 * positions [start, start + count) are used, where a count that is not
 * positive or exceeds n means n, and a negative start only shortens the
 * window.
 */
module Pagination {
  import opened CriteriaEval

  /** The count after "count was not specified, lets get all". */
  function Limit(n: nat, count: int): (c: nat)
    ensures 0 < count <= n ==> c == count
    ensures count <= 0 || count > n ==> c == n
    ensures c <= n
  {
    if count <= 0 || count > n then n else count
  }

  /** First position used: the start, clamped to [0, n]. */
  function Lo(n: nat, start: int): (lo: nat)
    ensures lo <= n
    ensures 0 <= start <= n ==> lo == start
  {
    if start < 0 then 0 else if start > n then n else start
  }

  /** One past the last position used: start + count, clamped to [Lo, n]. */
  function Hi(n: nat, start: int, count: int): (hi: nat)
    ensures Lo(n, start) <= hi <= n
  {
    var e := start + Limit(n, count);
    if e < Lo(n, start) then Lo(n, start) else if e > n then n else e
  }

  /** Keys in the order they are iterated: sorted when order-by clauses are given. */
  function Ordered(keys: seq<Ref>, orderBy: nat, sort: seq<Ref> -> seq<Ref>): seq<Ref>
  {
    if orderBy > 0 then sort(keys) else keys
  }

  function MapSeq<A, B>(s: seq<A>, f: A -> B): (r: seq<B>)
    ensures |r| == |s| && forall i :: 0 <= i < |s| ==> r[i] == f(s[i])
  {
    if |s| == 0 then [] else [f(s[0])] + MapSeq(s[1..], f)
  }

  /**
   * hydrateResultsWithIndexes: the entities of the keys at the window's
   * positions, in iteration order. `orderBy` is the number of order-by
   * clauses, `sort` the sorting of the keys, `fetch` the record lookup.
   */
  method HydrateResultsWithIndexes<E>(keys: seq<Ref>, orderBy: nat, sort: seq<Ref> -> seq<Ref>,
                                      start: int, count: int, fetch: Ref -> E)
    returns (list: seq<E>)
    ensures var ks := Ordered(keys, orderBy, sort);
      list == MapSeq(ks[Lo(|ks|, start)..Hi(|ks|, start, count)], fetch)
  {
    var ks := if orderBy > 0 then sort(keys) else keys;
    var n := |ks|;
    var limit := if count <= 0 || count > n then n else count;
    list := [];
    var p := 0;
    var i := 0;
    ghost var lo := Lo(n, start);
    while p < n
      invariant i == p && 0 <= p <= Hi(n, start, count)
      invariant p < lo ==> list == []
      invariant lo <= p ==> list == MapSeq(ks[lo..p], fetch)
    {
      if i < start && limit > 0 {
        p, i := p + 1, i + 1;
      } else if i >= limit + start || i >= n {
        break;
      } else {
        MapSeqStep(ks, lo, p, fetch);
        list := list + [fetch(ks[p])];
        p, i := p + 1, i + 1;
      }
    }
    assert lo <= p == Hi(n, start, count);
  }

  /** One more key of the window hydrated. */
  lemma MapSeqStep<A, B>(s: seq<A>, lo: nat, p: nat, f: A -> B)
    requires lo <= p < |s|
    ensures MapSeq(s[lo..p + 1], f) == MapSeq(s[lo..p], f) + [f(s[p])]
  {
  }

  /** The two-argument hydrateResultsWithIndexes: start 0, everything. */
  method HydrateAll<E>(keys: seq<Ref>, orderBy: nat, sort: seq<Ref> -> seq<Ref>, fetch: Ref -> E)
    returns (list: seq<E>)
    ensures list == MapSeq(Ordered(keys, orderBy, sort), fetch)
  {
    list := HydrateResultsWithIndexes(keys, orderBy, sort, 0, -1, fetch);
    assert Ordered(keys, orderBy, sort)[0..|Ordered(keys, orderBy, sort)|] == Ordered(keys, orderBy, sort);
  }

  /** One attribute to read for each record, and whether it is read through the entry's key or its value. */
  datatype ScannerProperty = ScannerProperty(attribute: string, useParentDescriptor: bool)

  /** The attribute values read for one entry. */
  function Record<V>(props: seq<ScannerProperty>, key: Ref, value: Ref, read: (Ref, string) -> V): map<string, V>
  {
    if |props| == 0 then map[]
    else
      var last := props[|props| - 1];
      var rest := Record(props[..|props| - 1], key, value, read);
      rest[last.attribute := read(if last.useParentDescriptor then key else value, last.attribute)]
  }

  /**
   * A record holds exactly the requested attributes, and each holds the value read for it, through the
   * entry's key or its value as the property says (for an attribute
   * requested once).
   */
  lemma {:induction false} RecordReadsEach<V>(props: seq<ScannerProperty>, key: Ref, value: Ref, read: (Ref, string) -> V)
    ensures Record(props, key, value, read).Keys == set p | p in props :: p.attribute
    ensures forall p :: p in props && (forall q :: q in props && q.attribute == p.attribute ==> q == p) ==>
      Record(props, key, value, read)[p.attribute] == read(if p.useParentDescriptor then key else value, p.attribute)
  {
    if |props| > 0 {
      var front := props[..|props| - 1];
      RecordReadsEach(front, key, value, read);
      assert forall p :: p in props ==> p == props[|props| - 1] || p in front;
      assert forall p :: p in front ==> p in props;
    }
  }

  /**
   * The results after putting, into `initial`, the record of each entry of
   * `window` in turn, later entries overriding earlier ones with the same
   * key; nothing is put when no attribute is requested.
   */
  function Hydrated<V>(initial: map<Ref, map<string, V>>, window: seq<(Ref, Ref)>,
                       props: seq<ScannerProperty>, read: (Ref, string) -> V): map<Ref, map<string, V>>
  {
    if |props| == 0 || |window| == 0 then initial
    else
      var e := window[|window| - 1];
      Hydrated(initial, window[..|window| - 1], props, read)[e.0 := Record(props, e.0, e.1, read)]
  }

  /**
   * hydrateQueryAttributes: for each entry in the window, the record of the
   * requested attributes is put under the entry's key into `initial` (an
   * empty map, or the sorting-values map when hydrating for a sort).
   */
  method HydrateQueryAttributes<V>(props: seq<ScannerProperty>, entries: seq<(Ref, Ref)>,
                                   initial: map<Ref, map<string, V>>, start: int, count: int,
                                   read: (Ref, string) -> V)
    returns (results: map<Ref, map<string, V>>)
    ensures results == Hydrated(initial, entries[Lo(|entries|, start)..Hi(|entries|, start, count)], props, read)
  {
    results := initial;
    var n := |entries|;
    if n == 0 {
      return;
    }
    var limit := if count <= 0 || count > n then n else count;
    var p := 0;
    var i := 0;
    ghost var lo := Lo(n, start);
    while p < n
      invariant i == p && 0 <= p <= Hi(n, start, count)
      invariant p < lo ==> results == initial
      invariant lo <= p ==> results == Hydrated(initial, entries[lo..p], props, read)
    {
      if i < start && limit > 0 {
        p, i := p + 1, i + 1;
      } else if i >= limit + start || i >= n {
        break;
      } else {
        var e := entries[p];
        var record := ReadRecord(props, e.0, e.1, read);
        HydratedStep(initial, entries, lo, p, props, read);
        if |props| > 0 {
          results := results[e.0 := record];
        }
        p, i := p + 1, i + 1;
      }
    }
    assert lo <= p == Hi(n, start, count);
  }

  /** One more entry of the window put into the results. */
  lemma HydratedStep<V>(initial: map<Ref, map<string, V>>, entries: seq<(Ref, Ref)>, lo: nat, p: nat,
                        props: seq<ScannerProperty>, read: (Ref, string) -> V)
    requires lo <= p < |entries|
    ensures var e := entries[p];
      Hydrated(initial, entries[lo..p + 1], props, read)
      == if |props| == 0 then Hydrated(initial, entries[lo..p], props, read)
         else Hydrated(initial, entries[lo..p], props, read)[e.0 := Record(props, e.0, e.1, read)]
  {
    var w := entries[lo..p + 1];
    assert |w| == p - lo + 1 && w[|w| - 1] == entries[p];
    assert forall i :: 0 <= i < p - lo ==> w[i] == entries[lo..p][i];
    assert w[..|w| - 1] == entries[lo..p];
  }

  /** The inner loop of hydrateQueryAttributes: reads each requested attribute of one entry. */
  method ReadRecord<V>(props: seq<ScannerProperty>, key: Ref, value: Ref, read: (Ref, string) -> V)
    returns (record: map<string, V>)
    ensures record == Record(props, key, value, read)
  {
    record := map[];
    var k := 0;
    while k < |props|
      invariant 0 <= k <= |props|
      invariant record == Record(props[..k], key, value, read)
    {
      var pr := props[k];
      record := record[pr.attribute := read(if pr.useParentDescriptor then key else value, pr.attribute)];
      assert props[..k + 1][..k] == props[..k];
      k := k + 1;
    }
    assert props[..|props|] == props;
  }

  /** With no attribute requested, hydrating a window leaves the results as they were. */
  lemma HydratedNothingRequested<V>(initial: map<Ref, map<string, V>>, window: seq<(Ref, Ref)>,
                                    read: (Ref, string) -> V)
    ensures Hydrated(initial, window, [], read) == initial
  {
  }

  /** When some attribute is requested, exactly the window's keys are added to the results. */
  lemma {:induction false} HydratedKeys<V>(initial: map<Ref, map<string, V>>, window: seq<(Ref, Ref)>,
                                           props: seq<ScannerProperty>, read: (Ref, string) -> V)
    requires |props| > 0
    ensures Hydrated(initial, window, props, read).Keys == initial.Keys + set e | e in window :: e.0
  {
    if |window| > 0 {
      var front := window[..|window| - 1];
      HydratedKeys(initial, front, props, read);
      assert forall e :: e in window ==> e == window[|window| - 1] || e in front;
      assert forall e :: e in front ==> e in window;
    }
  }

  /**
   * For a window with distinct keys (the entries of a map), each entry's
   * key holds the record read for that entry, and keys outside the window
   * keep what they held.
   */
  lemma {:induction false} HydratedPerEntry<V>(initial: map<Ref, map<string, V>>, window: seq<(Ref, Ref)>,
                                               props: seq<ScannerProperty>, read: (Ref, string) -> V)
    requires |props| > 0
    requires forall i, j :: 0 <= i < j < |window| ==> window[i].0 != window[j].0
    ensures forall i :: 0 <= i < |window| ==>
      window[i].0 in Hydrated(initial, window, props, read) &&
      Hydrated(initial, window, props, read)[window[i].0] == Record(props, window[i].0, window[i].1, read)
    ensures forall k :: k in initial && (forall i :: 0 <= i < |window| ==> window[i].0 != k) ==>
      k in Hydrated(initial, window, props, read) && Hydrated(initial, window, props, read)[k] == initial[k]
  {
    if |window| > 0 {
      var front := window[..|window| - 1];
      HydratedPerEntry(initial, front, props, read);
    }
  }

  // ---------------------------------------------------------------------------
  // Properties of the window
  // ---------------------------------------------------------------------------

  /** Without a start and without a count, the window is everything. */
  lemma WindowAll(n: nat, count: int)
    requires count <= 0
    ensures Lo(n, 0) == 0 && Hi(n, 0, count) == n
  {
  }

  /** For a start inside the keys, the window holds min(count, n - start) keys. */
  lemma WindowSize(n: nat, start: int, count: int)
    requires 0 <= start <= n
    ensures Hi(n, start, count) - Lo(n, start) ==
      (if Limit(n, count) < n - start then Limit(n, count) else n - start)
  {
  }

  /**
   * A negative start skips nothing and counts against the count: the window
   * begins at the first key and ends `-start` keys short of a full page.
   */
  lemma WindowNegativeStart(n: nat, start: int, count: int)
    requires start < 0
    ensures Lo(n, start) == 0
    ensures Hi(n, start, count) == if Limit(n, count) + start < 0 then 0 else Limit(n, count) + start
  {
  }

  /** A start at or beyond the end gives an empty window. */
  lemma WindowPastEnd(n: nat, start: int, count: int)
    requires start >= n
    ensures Lo(n, start) == Hi(n, start, count) == n
  {
  }

  /** Consecutive pages of the same positive size follow each other without gap or overlap. */
  lemma PagesTile(n: nat, start: int, size: int)
    requires 0 < size && 0 <= start
    ensures Hi(n, start, size) == Lo(n, start + size)
  {
  }

  lemma {:induction false} MapSeqAppend<A, B>(s: seq<A>, t: seq<A>, f: A -> B)
    ensures MapSeq(s + t, f) == MapSeq(s, f) + MapSeq(t, f)
  {
    if |s| > 0 {
      assert (s + t)[1..] == s[1..] + t;
      MapSeqAppend(s[1..], t, f);
    }
  }

  /**
   * Hydrating two consecutive pages of size `size` gives the same entities,
   * in the same order, as hydrating one page of twice that size.
   */
  lemma PagesConcatenate<E>(ks: seq<Ref>, start: int, size: int, fetch: Ref -> E)
    requires 0 < size && 0 <= start
    ensures MapSeq(ks[Lo(|ks|, start)..Hi(|ks|, start, size)], fetch)
          + MapSeq(ks[Lo(|ks|, start + size)..Hi(|ks|, start + size, size)], fetch)
         == MapSeq(ks[Lo(|ks|, start)..Hi(|ks|, start, 2 * size)], fetch)
  {
    var n := |ks|;
    var a, b, c := Lo(n, start), Hi(n, start, size), Hi(n, start + size, size);
    PagesTile(n, start, size);
    assert c == Hi(n, start, 2 * size);
    assert ks[a..b] + ks[b..c] == ks[a..c];
    MapSeqAppend(ks[a..b], ks[b..c], fetch);
  }

  /** firstRow 2 and maxResults 1 over four matches use exactly one record, the third. */
  lemma DeleteQueryWindow()
    ensures Lo(4, 2) == 2 && Hi(4, 2, 1) == 3
  {
  }
}
