/**
 * How a query's criteria tree is turned into the map of matching record
 * references: the leaf of every node is scanned, the starting results are
 * kept when they are not being replaced, the OR children are added, and
 * every AND child then narrows the running result. A terminated query
 * yields nothing.
 *
 * The scanner is a parameter: `scan(c, start)` is what the table scanner for
 * the criteria `c` returns, scanning the whole table when `start` is None
 * and only the given results otherwise. Whether the query is terminated is a
 * parameter too, constant for one evaluation.
 */
module CriteriaEval {
  import opened Wrappers

  /** A record reference: a plain reference id, or a reference inside a partition. */
  datatype Ref = Plain(id: int) | Partitioned(partition: int, reference: int)

  datatype Operator = EQUAL | NOT_EQUAL | GREATER_THAN | LESS_THAN | LIKE | IN

  /** A criteria node: its own test on one attribute, and its OR and AND children. */
  datatype Criteria = Criteria(attribute: string, operator: Operator, operand: Option<int>,
                               ors: seq<Criteria>, ands: seq<Criteria>)

  type Results = map<Ref, Ref>
  type Scanner = (Criteria, Option<Results>) -> Results

  /** The criteria used when a query has none: every record whose identifier is not null. */
  function AllRecords(identifierName: string): (c: Criteria)
    ensures c.attribute == identifierName && c.operator == NOT_EQUAL && c.ors == [] && c.ands == []
  {
    Criteria(identifierName, NOT_EQUAL, None, [], [])
  }

  /** Every key of `r` mapped to itself, as the OR results are put into the running result. */
  function KeysToSelf(r: Results): (m: Results)
    ensures m.Keys == r.Keys && forall k :: k in m ==> m[k] == k
  {
    map k | k in r :: k
  }

  /**
   * The result of a criteria node on a query that is not terminated: the
   * scan of its own test, then the starting results unless they are being
   * replaced, then the OR children, then the AND children.
   */
  function Eval(c: Criteria, start: Option<Results>, replace: bool, scan: Scanner): (r: Results)
    ensures c.ors == [] && c.ands == [] ==>
      r == if !replace && start.Some? then scan(c, start) + start.value else scan(c, start)
    ensures c.ands == [] ==> scan(c, start).Keys <= r.Keys
    ensures c.ands == [] && !replace && start.Some? ==> start.value.Keys <= r.Keys
    decreases c, 2
  {
    var scanned := scan(c, start);
    var kept := if !replace && start.Some? then scanned + start.value else scanned;
    var withOrs := OrFold(c, 0, start, kept, scan);
    AndFold(c, 0, withOrs, scan)
  }

  /** Adds the keys of the OR children from position `i` on, each evaluated on the original starting results. */
  function OrFold(c: Criteria, i: nat, start: Option<Results>, acc: Results, scan: Scanner): (r: Results)
    requires i <= |c.ors|
    ensures acc.Keys <= r.Keys
    decreases c, 1, |c.ors| - i
  {
    if i == |c.ors| then acc
    else OrFold(c, i + 1, start, acc + KeysToSelf(Eval(c.ors[i], start, false, scan)), scan)
  }

  /** Replaces the running result by each AND child from position `i` on, evaluated on that result. */
  function AndFold(c: Criteria, i: nat, acc: Results, scan: Scanner): Results
    requires i <= |c.ands|
    decreases c, 1, |c.ands| - i
  {
    if i == |c.ands| then acc
    else AndFold(c, i + 1, Eval(c.ands[i], Some(acc), true, scan), scan)
  }

  /** The running result the last AND child is evaluated on, when folding from position `i`. */
  function LastAndInput(c: Criteria, i: nat, acc: Results, scan: Scanner): Results
    requires i < |c.ands|
    decreases |c.ands| - i
  {
    if i == |c.ands| - 1 then acc
    else LastAndInput(c, i + 1, Eval(c.ands[i], Some(acc), true, scan), scan)
  }

  /** getIndexesForCriteria as a whole: empty when terminated, the evaluation otherwise. */
  function Indexes(c: Option<Criteria>, identifierName: string, start: Option<Results>, replace: bool,
                   terminated: bool, scan: Scanner): (r: Results)
    ensures terminated ==> r == map[]
    ensures !terminated && c.None? ==>
      r == if !replace && start.Some? then scan(AllRecords(identifierName), start) + start.value
           else scan(AllRecords(identifierName), start)
  {
    if terminated then map[]
    else Eval(if c.Some? then c.value else AllRecords(identifierName), start, replace, scan)
  }

  /**
   * getIndexesForCriteria: scans, merges and recurses exactly as the
   * evaluation above says, and answers an empty map when the query is
   * terminated.
   */
  method GetIndexesForCriteria(criteria: Option<Criteria>, identifierName: string, start: Option<Results>,
                               replace: bool, terminated: bool, scan: Scanner)
    returns (results: Results)
    ensures results == Indexes(criteria, identifierName, start, replace, terminated, scan)
    ensures terminated ==> results == map[]
    decreases if criteria.Some? then criteria.value else AllRecords(identifierName), 3
  {
    var c := if criteria.Some? then criteria.value else AllRecords(identifierName);
    results := scan(c, start);
    if !replace && start.Some? && !terminated {
      results := PutAll(results, start.value);
    }
    ghost var kept := results;
    var i := 0;
    while i < |c.ors| && !terminated
      invariant 0 <= i <= |c.ors|
      invariant !terminated ==> OrFold(c, 0, start, kept, scan) == OrFold(c, i, start, results, scan)
    {
      var orResults := GetIndexesForCriteria(Some(c.ors[i]), identifierName, start, false, false, scan);
      results := PutAll(results, KeysToSelf(orResults));
      i := i + 1;
    }
    ghost var withOrs := results;
    var j := 0;
    while j < |c.ands| && !terminated
      invariant 0 <= j <= |c.ands|
      invariant !terminated ==> AndFold(c, 0, withOrs, scan) == AndFold(c, j, results, scan)
    {
      results := GetIndexesForCriteria(Some(c.ands[j]), identifierName, Some(results), true, false, scan);
      j := j + 1;
    }
    if terminated {
      return map[];
    }
  }

  /** The put loops: every entry of `m` is put into `results`, overriding what was there. */
  method PutAll(results: Results, m: Results) returns (r: Results)
    ensures r == results + m
  {
    r := results;
    var pending := m.Keys;
    while pending != {}
      invariant pending <= m.Keys
      invariant r == results + map k | k in m && k !in pending :: m[k]
      decreases pending
    {
      var k :| k in pending;
      r := r[k := m[k]];
      pending := pending - {k};
    }
  }

  // ---------------------------------------------------------------------------
  // Properties of the evaluation
  // ---------------------------------------------------------------------------

  /** OR folding never loses a key of the running result, and adds every key of each OR child. */
  lemma {:induction false} OrFoldGrows(c: Criteria, i: nat, start: Option<Results>, acc: Results, scan: Scanner)
    requires i <= |c.ors|
    ensures acc.Keys <= OrFold(c, i, start, acc, scan).Keys
    ensures forall j :: i <= j < |c.ors| ==> Eval(c.ors[j], start, false, scan).Keys <= OrFold(c, i, start, acc, scan).Keys
    decreases |c.ors| - i
  {
    if i < |c.ors| {
      OrFoldGrows(c, i + 1, start, acc + KeysToSelf(Eval(c.ors[i], start, false, scan)), scan);
    }
  }

  /**
   * Without AND children, the result of a node keeps every starting key
   * (when not replacing) and every key of every OR child: OR is a union.
   */
  lemma OrIsUnion(c: Criteria, start: Option<Results>, replace: bool, scan: Scanner)
    requires c.ands == []
    ensures !replace && start.Some? ==> start.value.Keys <= Eval(c, start, replace, scan).Keys
    ensures scan(c, start).Keys <= Eval(c, start, replace, scan).Keys
    ensures forall j :: 0 <= j < |c.ors| ==> Eval(c.ors[j], start, false, scan).Keys <= Eval(c, start, replace, scan).Keys
  {
    var scanned := scan(c, start);
    var kept := if !replace && start.Some? then scanned + start.value else scanned;
    OrFoldGrows(c, 0, start, kept, scan);
  }

  /**
   * AND replaces rather than merges: once an AND child is left to fold, the
   * outcome is exactly what the last AND child gives on the running result
   * handed to it, and nothing of the earlier results survives on its own.
   */
  lemma {:induction false} AndFoldReplaces(c: Criteria, i: nat, acc: Results, scan: Scanner)
    requires i < |c.ands|
    ensures AndFold(c, i, acc, scan) == Eval(c.ands[|c.ands| - 1], Some(LastAndInput(c, i, acc, scan)), true, scan)
    decreases |c.ands| - i
  {
    if i < |c.ands| - 1 {
      AndFoldReplaces(c, i + 1, Eval(c.ands[i], Some(acc), true, scan), scan);
    }
  }

  /** A scanner that, given starting results, only ever returns some of them. */
  ghost predicate Restricting(scan: Scanner)
  {
    forall c, m :: scan(c, Some(m)).Keys <= m.Keys
  }

  /**
   * With a restricting scanner, evaluating any node on starting results
   * yields a subset of them: AND children can only narrow.
   */
  lemma {:induction false} EvalWithinStart(c: Criteria, m: Results, replace: bool, scan: Scanner)
    requires Restricting(scan)
    ensures Eval(c, Some(m), replace, scan).Keys <= m.Keys
    decreases c, 2
  {
    var scanned := scan(c, Some(m));
    var kept := if !replace then scanned + m else scanned;
    assert kept.Keys <= m.Keys;
    OrFoldWithin(c, 0, m, kept, scan);
    AndFoldWithin(c, 0, OrFold(c, 0, Some(m), kept, scan), m, scan);
  }

  lemma {:induction false} OrFoldWithin(c: Criteria, i: nat, m: Results, acc: Results, scan: Scanner)
    requires Restricting(scan) && i <= |c.ors| && acc.Keys <= m.Keys
    ensures OrFold(c, i, Some(m), acc, scan).Keys <= m.Keys
    decreases c, 1, |c.ors| - i
  {
    if i < |c.ors| {
      EvalWithinStart(c.ors[i], m, false, scan);
      OrFoldWithin(c, i + 1, m, acc + KeysToSelf(Eval(c.ors[i], Some(m), false, scan)), scan);
    }
  }

  lemma {:induction false} AndFoldWithin(c: Criteria, i: nat, acc: Results, m: Results, scan: Scanner)
    requires Restricting(scan) && i <= |c.ands| && acc.Keys <= m.Keys
    ensures AndFold(c, i, acc, scan).Keys <= m.Keys
    decreases c, 1, |c.ands| - i
  {
    if i < |c.ands| {
      EvalWithinStart(c.ands[i], acc, true, scan);
      AndFoldWithin(c, i + 1, Eval(c.ands[i], Some(acc), true, scan), m, scan);
    }
  }

  /**
   * With a restricting scanner, the AND children of a node narrow what its
   * own test and its OR children produced.
   */
  lemma AndNarrows(c: Criteria, start: Option<Results>, replace: bool, scan: Scanner)
    requires Restricting(scan)
    ensures var scanned := scan(c, start);
      var kept := if !replace && start.Some? then scanned + start.value else scanned;
      Eval(c, start, replace, scan).Keys <= OrFold(c, 0, start, kept, scan).Keys
  {
    var scanned := scan(c, start);
    var kept := if !replace && start.Some? then scanned + start.value else scanned;
    var withOrs := OrFold(c, 0, start, kept, scan);
    AndFoldWithin(c, 0, withOrs, withOrs, scan);
  }
}
