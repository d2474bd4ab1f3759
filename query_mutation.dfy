/**
 * Delete and update queries over one entity's stored records: the record
 * table, the index tables (one per indexed attribute, from reference to the
 * indexed value) and the set of records that have relationships stored.
 *
 * Both operations walk the matching references in iteration order through
 * the same window as hydration. Deleting removes, per reference, its index
 * entries, then its relationships, then the record. Updating skips a
 * reference whose record is missing without advancing its position counter,
 * and per record sets the attributes, removes the record's old index
 * entries, saves the record, then saves its new index entries.
 */
module QueryMutation {
  import opened CriteriaEval
  import opened Pagination
  import Validation

  type Entity = map<string, Validation.Value>
  type Index = map<Ref, Validation.Value>

  /** The stored tables of one entity type. */
  datatype Tables = Tables(records: map<Ref, Entity>, indexes: map<string, Index>, relationships: set<Ref>)

  /** One step of the index, relationship and record bookkeeping, in the order it happens. */
  datatype Step =
    | AllIndexesDeleted(ref: Ref)
    | RelationshipsDeleted(ref: Ref)
    | RecordDeleted(ref: Ref)
    | IndexEntryDeleted(field: string, ref: Ref)
    | RecordSaved(ref: Ref)
    | IndexEntrySaved(field: string, ref: Ref)

  /** An update instruction: the attribute, its new value, and whether that attribute is indexed. */
  datatype Instruction = Instruction(fieldName: string, value: Validation.Value, indexed: bool)

  /** The index table of an attribute; an attribute without one reads as empty. */
  function IndexOf(indexes: map<string, Index>, f: string): Index {
    if f in indexes then indexes[f] else map[]
  }

  /** The set of references in a sequence. */
  function Elems(refs: seq<Ref>): set<Ref> {
    set r | r in refs
  }

  // ---------------------------------------------------------------------------
  // Delete
  // ---------------------------------------------------------------------------

  /** Deleting one record: its entries leave every index, its relationships and the record table. */
  function DeleteOne(t: Tables, ref: Ref): Tables {
    Tables(t.records - {ref}, map f | f in t.indexes :: t.indexes[f] - {ref}, t.relationships - {ref})
  }

  /** Deleting the records of `refs` one after the other. */
  function DeleteAll(t: Tables, refs: seq<Ref>): (r: Tables)
    ensures r.records == t.records - Elems(refs) && r.relationships == t.relationships - Elems(refs)
    ensures r.indexes.Keys == t.indexes.Keys
  {
    if |refs| == 0 then
      assert Elems(refs) == {};
      t
    else
      assert Elems(refs) == Elems(refs[..|refs| - 1]) + {refs[|refs| - 1]};
      DeleteOne(DeleteAll(t, refs[..|refs| - 1]), refs[|refs| - 1])
  }

  function DeleteSteps(refs: seq<Ref>): seq<Step> {
    if |refs| == 0 then []
    else
      var r := refs[|refs| - 1];
      DeleteSteps(refs[..|refs| - 1]) + [AllIndexesDeleted(r), RelationshipsDeleted(r), RecordDeleted(r)]
  }

  // ---------------------------------------------------------------------------
  // Update
  // ---------------------------------------------------------------------------

  /** The entity after setting each instruction's attribute in turn. */
  function Apply(e: Entity, us: seq<Instruction>): (r: Entity)
    ensures e.Keys <= r.Keys
    ensures forall u :: u in us ==> u.fieldName in r
  {
    if |us| == 0 then e
    else
      var u := us[|us| - 1];
      assert forall v :: v in us ==> v in us[..|us| - 1] || v == u;
      Apply(e, us[..|us| - 1])[u.fieldName := u.value]
  }

  /** The old entries of `ref` removed from the index of each indexed instruction. */
  function DeletedFrom(indexes: map<string, Index>, us: seq<Instruction>, ref: Ref): map<string, Index> {
    if |us| == 0 then indexes
    else
      var u := us[|us| - 1];
      var d := DeletedFrom(indexes, us[..|us| - 1], ref);
      if u.indexed then d[u.fieldName := IndexOf(d, u.fieldName) - {ref}] else d
  }

  /** The new entries of `ref`, read from the saved entity `e`, put in the index of each indexed instruction. */
  function SavedTo(indexes: map<string, Index>, us: seq<Instruction>, ref: Ref, e: Entity): map<string, Index> {
    if |us| == 0 then indexes
    else
      var u := us[|us| - 1];
      var s := SavedTo(indexes, us[..|us| - 1], ref, e);
      if u.indexed && u.fieldName in e then s[u.fieldName := IndexOf(s, u.fieldName)[ref := e[u.fieldName]]] else s
  }

  /** Updating one stored record. */
  function UpdateOne(t: Tables, ref: Ref, us: seq<Instruction>): Tables {
    if ref !in t.records then t
    else
      var e := Apply(t.records[ref], us);
      Tables(t.records[ref := e], SavedTo(DeletedFrom(t.indexes, us, ref), us, ref, e), t.relationships)
  }

  /** Updating the records of `refs` one after the other. */
  function UpdateAll(t: Tables, refs: seq<Ref>, us: seq<Instruction>): (r: Tables)
    ensures r.records.Keys == t.records.Keys && r.relationships == t.relationships
  {
    if |refs| == 0 then t else UpdateOne(UpdateAll(t, refs[..|refs| - 1], us), refs[|refs| - 1], us)
  }

  function DeletionSteps(us: seq<Instruction>, ref: Ref): seq<Step> {
    if |us| == 0 then []
    else
      var u := us[|us| - 1];
      DeletionSteps(us[..|us| - 1], ref) + (if u.indexed then [IndexEntryDeleted(u.fieldName, ref)] else [])
  }

  function SaveSteps(us: seq<Instruction>, ref: Ref): seq<Step> {
    if |us| == 0 then []
    else
      var u := us[|us| - 1];
      SaveSteps(us[..|us| - 1], ref) + (if u.indexed then [IndexEntrySaved(u.fieldName, ref)] else [])
  }

  function UpdateSteps(ref: Ref, us: seq<Instruction>): seq<Step> {
    DeletionSteps(us, ref) + [RecordSaved(ref)] + SaveSteps(us, ref)
  }

  function UpdateLog(refs: seq<Ref>, us: seq<Instruction>): seq<Step> {
    if |refs| == 0 then [] else UpdateLog(refs[..|refs| - 1], us) + UpdateSteps(refs[|refs| - 1], us)
  }

  /**
   * The references an update visits: walking `keys` from position `lo` up
   * to `p`, the first `budget` of them that have a stored record.
   */
  function Selected(keys: seq<Ref>, lo: nat, p: nat, present: set<Ref>, budget: int): (r: seq<Ref>)
    requires lo <= p <= |keys|
    ensures |r| <= (if budget < 0 then 0 else budget)
    decreases p - lo
  {
    if p == lo then []
    else
      var pre := Selected(keys, lo, p - 1, present, budget);
      if keys[p - 1] in present && |pre| < budget then pre + [keys[p - 1]] else pre
  }

  /** Every reference an update visits has a stored record and was walked: it lies between `lo` and `p`. */
  lemma {:induction false} SelectedWalked(keys: seq<Ref>, lo: nat, p: nat, present: set<Ref>, budget: int)
    requires lo <= p <= |keys|
    ensures forall x :: x in Selected(keys, lo, p, present, budget) ==> x in present && x in keys[lo..p]
    decreases p - lo
  {
    if p > lo {
      SelectedWalked(keys, lo, p - 1, present, budget);
      assert forall x :: x in keys[lo..p - 1] ==> x in keys[lo..p];
      assert keys[p - 1] in keys[lo..p];
    }
  }

  // ---------------------------------------------------------------------------
  // The store
  // ---------------------------------------------------------------------------

  class RecordStore {
    var records: map<Ref, Entity>
    var indexes: map<string, Index>
    var relationships: set<Ref>
    /** The bookkeeping steps performed so far, in order. */
    ghost var log: seq<Step>

    function State(): Tables
      reads this
    {
      Tables(records, indexes, relationships)
    }

    constructor (t: Tables)
      ensures State() == t && log == []
    {
      records, indexes, relationships := t.records, t.indexes, t.relationships;
      log := [];
    }

    /** One record of a delete query: its indexes, then its relationships, then the record. */
    method DeleteRecord(ref: Ref)
      modifies this
      ensures State() == DeleteOne(old(State()), ref)
      ensures log == old(log) + [AllIndexesDeleted(ref), RelationshipsDeleted(ref), RecordDeleted(ref)]
    {
      indexes := map f | f in indexes :: indexes[f] - {ref};
      log := log + [AllIndexesDeleted(ref)];
      relationships := relationships - {ref};
      log := log + [RelationshipsDeleted(ref)];
      records := records - {ref};
      log := log + [RecordDeleted(ref)];
    }

    /**
     * deleteRecordsWithIndexes: deletes every record of the window of `keys`
     * given by `firstRow` and `maxResults`, in order, and answers how many.
     */
    method DeleteRecordsWithIndexes(keys: seq<Ref>, firstRow: int, maxResults: int) returns (recordsUpdated: int)
      modifies this
      ensures var lo, hi := Lo(|keys|, firstRow), Hi(|keys|, firstRow, maxResults);
        recordsUpdated == hi - lo &&
        State() == DeleteAll(old(State()), keys[lo..hi]) &&
        log == old(log) + DeleteSteps(keys[lo..hi])
    {
      var n := |keys|;
      var start := firstRow;
      var count := if maxResults <= 0 || maxResults > n then n else maxResults;
      recordsUpdated := 0;
      var p := 0;
      var i := 0;
      ghost var lo := Lo(n, firstRow);
      ghost var t0 := State();
      ghost var log0 := log;
      ghost var done: seq<Ref> := [];
      assert DeleteAll(t0, done) == t0;
      while p < n
        invariant i == p && 0 <= p <= Hi(n, firstRow, maxResults)
        invariant p < lo ==> done == []
        invariant lo <= p ==> done == keys[lo..p]
        invariant recordsUpdated == |done|
        invariant State() == DeleteAll(t0, done) && log == log0 + DeleteSteps(done)
      {
        if i < start && count > 0 {
          assert p < lo;
          if p + 1 == lo {
            assert keys[lo..lo] == [];
          }
          p, i := p + 1, i + 1;
        } else if i >= count + start || i >= n {
          DeleteWindowEnd(n, start, maxResults, p);
          break;
        } else {
          WindowRoom(n, start, maxResults, i);
          DeleteNext(keys[p], t0, log0, done);
          SliceSnoc(keys, lo, p);
          done := done + [keys[p]];
          recordsUpdated := recordsUpdated + 1;
          p, i := p + 1, i + 1;
        }
      }
      assert lo <= p == Hi(n, firstRow, maxResults);
    }

    /** The window's next record deleted: the deletions of `done` followed by that of `ref`. */
    method DeleteNext(ref: Ref, ghost t0: Tables, ghost log0: seq<Step>, ghost done: seq<Ref>)
      requires State() == DeleteAll(t0, done) && log == log0 + DeleteSteps(done)
      modifies this
      ensures State() == DeleteAll(t0, done + [ref]) && log == log0 + DeleteSteps(done + [ref])
    {
      DeletedOneMore(t0, log0, done, ref);
      DeleteRecord(ref);
    }

    /**
     * One record of an update query: each attribute is set and, when it is
     * indexed, the record's old entry leaves that index; the record is
     * saved; then the record's new value enters each index.
     */
    method UpdateRecord(ref: Ref, us: seq<Instruction>)
      requires ref in records
      modifies this
      ensures State() == UpdateOne(old(State()), ref, us)
      ensures log == old(log) + UpdateSteps(ref, us)
    {
      var entity := RemoveOldIndexEntries(ref, us);
      records := records[ref := entity];
      log := log + [RecordSaved(ref)];
      SaveNewIndexEntries(ref, us, entity);
    }

    /** The first loop over the instructions: set each attribute, and remove the record's entry from each indexed one. */
    method RemoveOldIndexEntries(ref: Ref, us: seq<Instruction>) returns (entity: Entity)
      requires ref in records
      modifies this
      ensures entity == Apply(old(records)[ref], us)
      ensures indexes == DeletedFrom(old(indexes), us, ref)
      ensures records == old(records) && relationships == old(relationships)
      ensures log == old(log) + DeletionSteps(us, ref)
    {
      entity := records[ref];
      var k := 0;
      while k < |us|
        invariant 0 <= k <= |us|
        invariant entity == Apply(old(records)[ref], us[..k])
        invariant indexes == DeletedFrom(old(indexes), us[..k], ref)
        invariant log == old(log) + DeletionSteps(us[..k], ref)
        invariant records == old(records) && relationships == old(relationships)
      {
        var u := us[k];
        assert us[..k + 1][..k] == us[..k];
        entity := entity[u.fieldName := u.value];
        if u.indexed {
          indexes := indexes[u.fieldName := IndexOf(indexes, u.fieldName) - {ref}];
          log := log + [IndexEntryDeleted(u.fieldName, ref)];
        }
        k := k + 1;
      }
      assert us[..|us|] == us;
    }

    /** The second loop over the instructions: put the saved value of each indexed attribute in its index. */
    method SaveNewIndexEntries(ref: Ref, us: seq<Instruction>, entity: Entity)
      modifies this
      ensures indexes == SavedTo(old(indexes), us, ref, entity)
      ensures records == old(records) && relationships == old(relationships)
      ensures log == old(log) + SaveSteps(us, ref)
    {
      var k := 0;
      while k < |us|
        invariant 0 <= k <= |us|
        invariant indexes == SavedTo(old(indexes), us[..k], ref, entity)
        invariant log == old(log) + SaveSteps(us[..k], ref)
        invariant records == old(records) && relationships == old(relationships)
      {
        var u := us[k];
        assert us[..k + 1][..k] == us[..k];
        if u.indexed && u.fieldName in entity {
          indexes := indexes[u.fieldName := IndexOf(indexes, u.fieldName)[ref := entity[u.fieldName]]];
        }
        if u.indexed {
          log := log + [IndexEntrySaved(u.fieldName, ref)];
        }
        k := k + 1;
      }
      assert us[..|us|] == us;
    }

    /**
     * updateRecordsWithValues: from the window's first position on, updates
     * the records of the references that have one, skipping those that have
     * none without counting them, until the window's size is reached; answers
     * how many records were updated.
     */
    method UpdateRecordsWithValues(keys: seq<Ref>, us: seq<Instruction>, start: int, count: int)
      returns (recordsUpdated: int)
      modifies this
      ensures var lo, hi := Lo(|keys|, start), Hi(|keys|, start, count);
        var sel := Selected(keys, lo, |keys|, old(records).Keys, hi - lo);
        recordsUpdated == |sel| &&
        State() == UpdateAll(old(State()), sel, us) &&
        log == old(log) + UpdateLog(sel, us)
    {
      var n := |keys|;
      recordsUpdated := 0;
      var p := 0;
      var i := 0;
      ghost var lo := Lo(n, start);
      ghost var budget := Hi(n, start, count) - lo;
      ghost var present := records.Keys;
      ghost var sel: seq<Ref> := [];
      ghost var t0 := State();
      ghost var log0 := log;
      while p < n
        invariant 0 <= p <= n && records.Keys == present
        invariant p < lo ==> i == p && sel == []
        invariant lo <= p ==> i == lo + |sel| && sel == Selected(keys, lo, p, present, budget)
        invariant recordsUpdated == |sel|
        invariant State() == UpdateAll(t0, sel, us)
        invariant log == log0 + UpdateLog(sel, us)
      {
        var stop, updated;
        ghost var visited;
        i, stop, updated, visited := WalkStep(keys, us, start, count, p, i, lo, budget, present, sel, t0, log0);
        if stop {
          break;
        }
        if updated {
          recordsUpdated := recordsUpdated + 1;
        }
        sel := visited;
        p := p + 1;
      }
      assert sel == Selected(keys, lo, n, present, budget);
      assert t0 == old(State()) && log0 == old(log);
      ghost var final := Selected(keys, Lo(|keys|, start), |keys|, old(records).Keys, Hi(|keys|, start, count) - Lo(|keys|, start));
      assert final == sel;
      assert State() == UpdateAll(old(State()), final, us);
    }

    /**
     * One iteration of an update's walk at position `p`: a row before the
     * window is skipped, a position at or past the window's end stops the
     * walk, and any other reference is visited. `i` counts the skipped rows
     * and the updated records.
     */
    method WalkStep(keys: seq<Ref>, us: seq<Instruction>, start: int, count: int, p: nat, i: int,
                    ghost lo: nat, ghost budget: int, ghost present: set<Ref>, ghost sel: seq<Ref>,
                    ghost t0: Tables, ghost log0: seq<Step>)
      returns (i': int, stop: bool, updated: bool, ghost visited: seq<Ref>)
      requires p < |keys| && lo == Lo(|keys|, start) && budget == Hi(|keys|, start, count) - lo
      requires records.Keys == present
      requires p < lo ==> i == p && sel == []
      requires lo <= p ==> i == lo + |sel| && sel == Selected(keys, lo, p, present, budget)
      requires State() == UpdateAll(t0, sel, us) && log == log0 + UpdateLog(sel, us)
      modifies this
      ensures stop ==>
        !updated && lo <= p && sel == Selected(keys, lo, |keys|, present, budget) &&
        State() == old(State()) && log == old(log)
      ensures !stop ==>
        visited == (if updated then sel + [keys[p]] else sel) &&
        records.Keys == present &&
        (p + 1 < lo ==> i' == p + 1 && visited == []) &&
        (lo <= p + 1 ==> i' == lo + |visited| && visited == Selected(keys, lo, p + 1, present, budget)) &&
        State() == UpdateAll(t0, visited, us) && log == log0 + UpdateLog(visited, us)
    {
      var n := |keys|;
      var limit := if count <= 0 || count > n then n else count;
      if i < start && limit > 0 {
        assert p < lo;
        if p + 1 == lo {
          assert Selected(keys, lo, lo, present, budget) == [];
        }
        return i + 1, false, false, sel;
      }
      if i >= limit + start || i >= n {
        WindowExhausted(n, start, count, i, p, |sel|);
        SelectedFull(keys, lo, p, n, present, budget);
        return i, true, false, sel;
      }
      WindowRoom(n, start, count, i);
      updated := VisitReference(keys, us, p, lo, budget, present, sel, t0, log0);
      i' := if updated then i + 1 else i;
      stop := false;
      visited := if updated then sel + [keys[p]] else sel;
    }

    /**
     * One position of an update's walk inside the window: the record of
     * `keys[p]` is updated when there is one, and the reference is then one
     * more of the visited ones; a reference without a record is passed over.
     */
    method VisitReference(keys: seq<Ref>, us: seq<Instruction>, p: nat, ghost lo: nat, ghost budget: int,
                          ghost present: set<Ref>, ghost sel: seq<Ref>, ghost t0: Tables, ghost log0: seq<Step>)
      returns (updated: bool)
      requires lo <= p < |keys| && |sel| < budget && sel == Selected(keys, lo, p, present, budget)
      requires records.Keys == present && State() == UpdateAll(t0, sel, us) && log == log0 + UpdateLog(sel, us)
      modifies this
      ensures updated == (keys[p] in present)
      ensures var visited := if updated then sel + [keys[p]] else sel;
        visited == Selected(keys, lo, p + 1, present, budget) && records.Keys == present &&
        State() == UpdateAll(t0, visited, us) && log == log0 + UpdateLog(visited, us)
    {
      var ref := keys[p];
      if ref !in records {
        return false;
      }
      UpdateRecord(ref, us);
      Appended(t0, sel, ref, us);
      ConcatAssoc(log0, UpdateLog(sel, us), UpdateSteps(ref, us));
      return true;
    }
  }

  /** One more record deleted by a delete query. */
  lemma DeletedOneMore(t: Tables, log0: seq<Step>, done: seq<Ref>, r: Ref)
    ensures DeleteAll(t, done + [r]) == DeleteOne(DeleteAll(t, done), r) &&
      log0 + DeleteSteps(done + [r])
      == (log0 + DeleteSteps(done)) + [AllIndexesDeleted(r), RelationshipsDeleted(r), RecordDeleted(r)]
  {
    assert (done + [r])[..|done|] == done;
  }

  /** A position where an update stops, past the skipped rows, lies at or beyond the window's end. */
  lemma WindowExhausted(n: nat, start: int, count: int, i: int, p: nat, visited: nat)
    requires 0 < n && p < n && i == (if p < Lo(n, start) then p else Lo(n, start) + visited)
    requires !(i < start && Limit(n, count) > 0)
    requires i >= Limit(n, count) + start || i >= n
    ensures Lo(n, start) <= p && visited >= Hi(n, start, count) - Lo(n, start)
  {
  }

  /** A deletion stops, past the skipped rows, exactly at the window's end. */
  lemma DeleteWindowEnd(n: nat, start: int, count: int, p: nat)
    requires p < n && p <= Hi(n, start, count)
    requires !(p < start && Limit(n, count) > 0)
    requires p >= Limit(n, count) + start || p >= n
    ensures Lo(n, start) <= p == Hi(n, start, count)
  {
  }

  lemma SliceSnoc(keys: seq<Ref>, lo: nat, p: nat)
    requires lo <= p < |keys|
    ensures keys[lo..p + 1] == keys[lo..p] + [keys[p]]
  {
  }

  /** A position reached by an update, past the skipped rows and short of the window's end, lies inside the window. */
  lemma WindowRoom(n: nat, start: int, count: int, i: int)
    requires (start <= 0 || i >= start) && i >= Lo(n, start)
    requires i < Limit(n, count) + start && i < n
    ensures Lo(n, start) <= i < Hi(n, start, count)
  {
  }

  lemma ConcatAssoc<T>(a: seq<T>, b: seq<T>, c: seq<T>)
    ensures (a + b) + c == a + (b + c)
  {
  }

  /** One more record updated by an update query. */
  lemma Appended(t: Tables, sel: seq<Ref>, ref: Ref, us: seq<Instruction>)
    ensures UpdateAll(t, sel + [ref], us) == UpdateOne(UpdateAll(t, sel, us), ref, us)
    ensures UpdateLog(sel + [ref], us) == UpdateLog(sel, us) + UpdateSteps(ref, us)
    ensures UpdateAll(t, sel + [ref], us).records.Keys == t.records.Keys
  {
    assert (sel + [ref])[..|sel|] == sel;
  }

  // ---------------------------------------------------------------------------
  // Properties
  // ---------------------------------------------------------------------------


  /** Once `budget` references were visited, the remaining keys add nothing. */
  lemma {:induction false} SelectedFull(keys: seq<Ref>, lo: nat, p: nat, q: nat, present: set<Ref>, budget: int)
    requires lo <= p <= q <= |keys| && |Selected(keys, lo, p, present, budget)| >= budget
    ensures Selected(keys, lo, q, present, budget) == Selected(keys, lo, p, present, budget)
    decreases q - p
  {
    if q > p {
      SelectedFull(keys, lo, p, q - 1, present, budget);
    }
  }

  /** With every walked key stored, an update visits exactly the first `budget` of them. */
  lemma {:induction false} SelectedAllPresent(keys: seq<Ref>, lo: nat, p: nat, present: set<Ref>, budget: nat)
    requires lo <= p <= |keys|
    requires forall r :: r in keys[lo..p] ==> r in present
    ensures Selected(keys, lo, p, present, budget) == keys[lo..if lo + budget < p then lo + budget else p]
    decreases p - lo
  {
    if p > lo {
      assert forall r :: r in keys[lo..p - 1] ==> r in keys[lo..p];
      assert keys[p - 1] in keys[lo..p];
      SelectedAllPresent(keys, lo, p - 1, present, budget);
    }
  }

  /** Short of its budget, an update has visited every stored key it walked past. */
  lemma {:induction false} SelectedMissesNothing(keys: seq<Ref>, lo: nat, p: nat, present: set<Ref>, budget: int)
    requires lo <= p <= |keys|
    requires |Selected(keys, lo, p, present, budget)| < budget
    ensures forall r :: r in keys[lo..p] && r in present ==> r in Selected(keys, lo, p, present, budget)
    decreases p - lo
  {
    if p > lo {
      SelectedMissesNothing(keys, lo, p - 1, present, budget);
      assert forall r :: r in keys[lo..p] ==> r in keys[lo..p - 1] || r == keys[p - 1];
    }
  }


  /** Deleting a run of references is removing all of them at once. */
  lemma {:induction false} DeleteAllRemoves(t: Tables, refs: seq<Ref>)
    ensures DeleteAll(t, refs) ==
      Tables(t.records - Elems(refs), map f | f in t.indexes :: t.indexes[f] - Elems(refs),
             t.relationships - Elems(refs))
  {
    if |refs| == 0 {
      assert Elems(refs) == {};
      assert t.records - Elems(refs) == t.records;
      forall f | f in t.indexes ensures t.indexes[f] - Elems(refs) == t.indexes[f] {
        assert (t.indexes[f] - Elems(refs)).Keys == t.indexes[f].Keys;
      }
      assert (map f | f in t.indexes :: t.indexes[f] - Elems(refs)) == t.indexes;
    } else {
      var front := refs[..|refs| - 1];
      var last := refs[|refs| - 1];
      DeleteAllRemoves(t, front);
      assert Elems(refs) == Elems(front) + {last};
      var d := DeleteAll(t, front);
      assert d.records - {last} == t.records - Elems(refs);
      forall f | f in d.indexes ensures d.indexes[f] - {last} == t.indexes[f] - Elems(refs) {
        assert (d.indexes[f] - {last}).Keys == (t.indexes[f] - Elems(refs)).Keys;
      }
      assert (map f | f in d.indexes :: d.indexes[f] - {last})
          == (map f | f in t.indexes :: t.indexes[f] - Elems(refs));
    }
  }

  /** Setting attributes: the last instruction for an attribute wins. */
  lemma {:induction false} ApplySetsLast(e: Entity, us: seq<Instruction>, k: nat)
    requires k < |us| && forall j :: k < j < |us| ==> us[j].fieldName != us[k].fieldName
    ensures us[k].fieldName in Apply(e, us) && Apply(e, us)[us[k].fieldName] == us[k].value
  {
    if k < |us| - 1 {
      ApplySetsLast(e, us[..|us| - 1], k);
    }
  }

  /** Setting attributes leaves every attribute that no instruction names as it was. */
  lemma {:induction false} ApplyKeepsOthers(e: Entity, us: seq<Instruction>, f: string)
    requires f in e && forall u :: u in us ==> u.fieldName != f
    ensures f in Apply(e, us) && Apply(e, us)[f] == e[f]
  {
    if |us| > 0 {
      assert forall u :: u in us[..|us| - 1] ==> u in us;
      ApplyKeepsOthers(e, us[..|us| - 1], f);
    }
  }


  /** Removing old entries touches only `ref`, and only in the indexes of indexed instructions. */
  lemma {:induction false} DeletedFromFacts(indexes: map<string, Index>, us: seq<Instruction>, ref: Ref)
    ensures forall f :: IndexOf(DeletedFrom(indexes, us, ref), f) - {ref} == IndexOf(indexes, f) - {ref}
    ensures forall f :: (forall u :: u in us && u.indexed ==> u.fieldName != f) ==>
      IndexOf(DeletedFrom(indexes, us, ref), f) == IndexOf(indexes, f)
    ensures forall u :: u in us && u.indexed ==> ref !in IndexOf(DeletedFrom(indexes, us, ref), u.fieldName)
  {
    if |us| > 0 {
      DeletedFromFacts(indexes, us[..|us| - 1], ref);
      assert forall u :: u in us ==> u in us[..|us| - 1] || u == us[|us| - 1];
      assert forall u :: u in us[..|us| - 1] ==> u in us;
    }
  }

  /** Saving new entries puts `ref` with the saved entity's value in every index of an indexed instruction, and nothing else. */
  lemma {:induction false} SavedToFacts(indexes: map<string, Index>, us: seq<Instruction>, ref: Ref, e: Entity)
    requires forall u :: u in us ==> u.fieldName in e
    ensures forall f :: IndexOf(SavedTo(indexes, us, ref, e), f) - {ref} == IndexOf(indexes, f) - {ref}
    ensures forall f :: (forall u :: u in us && u.indexed ==> u.fieldName != f) ==>
      IndexOf(SavedTo(indexes, us, ref, e), f) == IndexOf(indexes, f)
    ensures forall u :: u in us && u.indexed ==>
      ref in IndexOf(SavedTo(indexes, us, ref, e), u.fieldName) &&
      IndexOf(SavedTo(indexes, us, ref, e), u.fieldName)[ref] == e[u.fieldName]
  {
    if |us| > 0 {
      SavedToFacts(indexes, us[..|us| - 1], ref, e);
      assert forall u :: u in us ==> u in us[..|us| - 1] || u == us[|us| - 1];
      assert forall u :: u in us[..|us| - 1] ==> u in us;
    }
  }

  /**
   * The indexes agree with the records: every index entry is the current
   * value of its attribute in a stored record.
   */
  ghost predicate IndexesAgree(t: Tables)
  {
    forall f, r :: f in t.indexes && r in t.indexes[f] ==>
      r in t.records && f in t.records[r] && t.indexes[f][r] == t.records[r][f]
  }

  /** Deleting a record keeps the indexes in agreement with the records. */
  lemma DeleteKeepsIndexesAgree(t: Tables, ref: Ref)
    requires IndexesAgree(t)
    ensures IndexesAgree(DeleteOne(t, ref))
  {
  }

  /**
   * Updating a record keeps the indexes in agreement with the records, when
   * the instructions that are indexed are exactly those whose attribute has
   * an index table.
   */
  lemma UpdateKeepsIndexesAgree(t: Tables, ref: Ref, us: seq<Instruction>)
    requires IndexesAgree(t)
    requires forall u :: u in us ==> (u.indexed <==> u.fieldName in t.indexes)
    ensures IndexesAgree(UpdateOne(t, ref, us))
  {
    if ref in t.records {
      var e := Apply(t.records[ref], us);
      DeletedFromFacts(t.indexes, us, ref);
      var d := DeletedFrom(t.indexes, us, ref);
      SavedToFacts(d, us, ref, e);
      var t' := UpdateOne(t, ref, us);
      forall f, r | f in t'.indexes && r in t'.indexes[f]
        ensures r in t'.records && f in t'.records[r] && t'.indexes[f][r] == t'.records[r][f]
      {
        assert t'.indexes[f] == IndexOf(t'.indexes, f);
        if r != ref {
          assert r in IndexOf(t.indexes, f) - {ref};
        } else if u :| u in us && u.indexed && u.fieldName == f {
          assert t'.indexes[f][ref] == e[f];
        } else {
          assert r in IndexOf(t.indexes, f);
          ApplyKeepsOthers(t.records[ref], us, f);
        }
      }
    }
  }

  /** Per record of a delete: its indexes go first, then its relationships, then the record. */
  lemma {:induction false} DeleteOrder(refs: seq<Ref>)
    ensures |DeleteSteps(refs)| == 3 * |refs|
    ensures forall k :: 0 <= k < |refs| ==>
      DeleteSteps(refs)[3 * k] == AllIndexesDeleted(refs[k]) &&
      DeleteSteps(refs)[3 * k + 1] == RelationshipsDeleted(refs[k]) &&
      DeleteSteps(refs)[3 * k + 2] == RecordDeleted(refs[k])
  {
    if |refs| > 0 {
      DeleteOrder(refs[..|refs| - 1]);
    }
  }

  /** The steps before an update saves its record only ever remove an index entry. */
  lemma {:induction false} DeletionStepsAreDeletions(us: seq<Instruction>, ref: Ref)
    ensures forall k :: 0 <= k < |DeletionSteps(us, ref)| ==> DeletionSteps(us, ref)[k].IndexEntryDeleted?
  {
    if |us| > 0 {
      DeletionStepsAreDeletions(us[..|us| - 1], ref);
    }
  }

  /** The steps after an update saves its record only ever add an index entry. */
  lemma {:induction false} SaveStepsAreSaves(us: seq<Instruction>, ref: Ref)
    ensures forall k :: 0 <= k < |SaveSteps(us, ref)| ==> SaveSteps(us, ref)[k].IndexEntrySaved?
  {
    if |us| > 0 {
      SaveStepsAreSaves(us[..|us| - 1], ref);
    }
  }

  /**
   * Per record of an update: every old index entry is removed before the
   * record is saved, and every new entry is saved after it.
   */
  lemma UpdateOrder(ref: Ref, us: seq<Instruction>, i: nat, j: nat)
    requires i < |UpdateSteps(ref, us)| && j < |UpdateSteps(ref, us)|
    ensures UpdateSteps(ref, us)[i].IndexEntryDeleted? && UpdateSteps(ref, us)[j].RecordSaved? ==> i < j
    ensures UpdateSteps(ref, us)[i].RecordSaved? && UpdateSteps(ref, us)[j].IndexEntrySaved? ==> i < j
  {
    var d := DeletionSteps(us, ref);
    DeletionStepsAreDeletions(us, ref);
    SaveStepsAreSaves(us, ref);
    var steps := UpdateSteps(ref, us);
    assert forall k :: |d| < k < |steps| ==> steps[k] == SaveSteps(us, ref)[k - |d| - 1];
    assert forall k :: 0 <= k < |d| ==> steps[k] == d[k];
  }

  /** The delete query of the tests: four matches, first row 2, at most one result: one deleted, three left. */
  lemma DeleteQueryExample(t: Tables, keys: seq<Ref>)
    requires |keys| == 4 && forall i, j :: 0 <= i < j < 4 ==> keys[i] != keys[j]
    requires t.records.Keys == Elems(keys)
    ensures Hi(4, 2, 1) - Lo(4, 2) == 1
    ensures |DeleteAll(t, keys[Lo(4, 2)..Hi(4, 2, 1)]).records| == 3
  {
    var window := keys[2..3];
    assert Elems(window) == {keys[2]} by {
      assert window == [keys[2]];
    }
    var left := DeleteAll(t, window).records;
    assert left == t.records - {keys[2]};
    assert left.Keys == {keys[0], keys[1], keys[3]} by {
      assert Elems(keys) == {keys[0], keys[1], keys[2], keys[3]};
    }
    ThreeDistinct(keys[0], keys[1], keys[3]);
  }

  lemma ThreeDistinct(a: Ref, b: Ref, c: Ref)
    requires a != b && a != c && b != c
    ensures |{a, b, c}| == 3
  {
    assert {a, b} == {a} + {b};
    assert {a, b, c} == {a, b} + {c};
  }
}
