/**
 * The route table of the REST interface: the thirteen services, the fixed
 * path of each, and the case-insensitive lookup of a service by its path.
 */
module RestService {
  import opened Wrappers
  import opened JavaStrings

  datatype RestServicePath =
    | SAVE
    | FIND_BY_REFERENCE
    | FIND_BY_PARTITION
    | FIND
    | DELETE
    | EXECUTE
    | INITIALIZE
    | BATCH_SAVE
    | BATCH_DELETE
    | EXECUTE_UPDATE
    | EXECUTE_DELETE
    | EXISTS
    | SAVE_RELATIONSHIPS

  /** The constants in declaration order (the enum's values()). */
  const VALUES: seq<RestServicePath> := [
    SAVE, FIND_BY_REFERENCE, FIND_BY_PARTITION, FIND, DELETE, EXECUTE, INITIALIZE,
    BATCH_SAVE, BATCH_DELETE, EXECUTE_UPDATE, EXECUTE_DELETE, EXISTS, SAVE_RELATIONSHIPS
  ]

  /** The path each service is published under. */
  function Path(p: RestServicePath): (s: string)
    ensures |s| > 1 && s[0] == '/'
  {
    match p
    case SAVE => "/saveEntity"
    case FIND_BY_REFERENCE => "/findByReferenceId"
    case FIND_BY_PARTITION => "/findWithPartitionId"
    case FIND => "/find"
    case DELETE => "/deleteEntity"
    case EXECUTE => "/execute"
    case INITIALIZE => "/initialize"
    case BATCH_SAVE => "/batchSave"
    case BATCH_DELETE => "/batchDelete"
    case EXECUTE_UPDATE => "/executeUpdate"
    case EXECUTE_DELETE => "/executeDelete"
    case EXISTS => "/exists"
    case SAVE_RELATIONSHIPS => "/saveRelationships"
  }

  /** Position of a constant in declaration order (its ordinal). */
  function Ordinal(p: RestServicePath): (i: nat)
    ensures i < |VALUES| && VALUES[i] == p
  {
    match p
    case SAVE => 0
    case FIND_BY_REFERENCE => 1
    case FIND_BY_PARTITION => 2
    case FIND => 3
    case DELETE => 4
    case EXECUTE => 5
    case INITIALIZE => 6
    case BATCH_SAVE => 7
    case BATCH_DELETE => 8
    case EXECUTE_UPDATE => 9
    case EXECUTE_DELETE => 10
    case EXISTS => 11
    case SAVE_RELATIONSHIPS => 12
  }

  /** The IllegalArgumentException raised for a path no service has. */
  datatype IllegalArgument = IllegalArgument(message: string)

  function NoSuchPathMessage(name: string): string {
    "There is no value with name '" + name + "' in Enum RestServicePath"
  }

  /** First constant at or after position `i` whose path equals `name` ignoring case. */
  function FindFrom(name: string, i: nat): (r: Option<RestServicePath>)
    requires i <= |VALUES|
    ensures r.Some? ==> i <= Ordinal(r.value) && EqualsIgnoreCase(Path(r.value), name)
    ensures r.Some? ==> forall j :: i <= j < Ordinal(r.value) ==> !EqualsIgnoreCase(Path(VALUES[j]), name)
    ensures r.None? ==> forall j :: i <= j < |VALUES| ==> !EqualsIgnoreCase(Path(VALUES[j]), name)
  {
    var paths := Paths();
    match IndexFrom(paths, name, i)
    case None => None
    case Some(k) =>
      OrdinalOf(k);
      Some(VALUES[k])
  }

  /** The paths of the constants, in declaration order. */
  function Paths(): (paths: seq<string>)
    ensures |paths| == |VALUES| && forall j :: 0 <= j < |VALUES| ==> paths[j] == Path(VALUES[j])
  {
    seq(|VALUES|, j requires 0 <= j < |VALUES| => Path(VALUES[j]))
  }

  /** The position of the first of `paths` at or after `i` that equals `name` ignoring case. */
  function IndexFrom(paths: seq<string>, name: string, i: nat): (r: Option<nat>)
    requires i <= |paths|
    ensures r.Some? ==> i <= r.value < |paths| && EqualsIgnoreCase(paths[r.value], name)
    ensures r.Some? ==> forall j :: i <= j < r.value ==> !EqualsIgnoreCase(paths[j], name)
    ensures r.None? ==> forall j :: i <= j < |paths| ==> !EqualsIgnoreCase(paths[j], name)
    decreases |paths| - i
  {
    if i == |paths| then None
    else if EqualsIgnoreCase(paths[i], name) then Some(i)
    else IndexFrom(paths, name, i + 1)
  }

  /** The constants are listed in ordinal order. */
  lemma OrdinalOf(i: nat)
    requires i < |VALUES|
    ensures Ordinal(VALUES[i]) == i
  {
    assert i in {0, 1, 2, 3, 4, 5, 6, 7, 8, 9, 10, 11, 12};
  }

  /**
   * valueOfPath: the first constant, in declaration order, whose path equals
   * `name` ignoring case; an IllegalArgumentException when there is none.
   */
  function ValueOfPath(name: string): (r: Result<RestServicePath, IllegalArgument>)
    ensures r.Ok? ==> EqualsIgnoreCase(Path(r.value), name)
    ensures r.Ok? ==> forall j :: 0 <= j < Ordinal(r.value) ==> !EqualsIgnoreCase(Path(VALUES[j]), name)
    ensures r.Err? <==> forall q :: !EqualsIgnoreCase(Path(q), name)
    ensures r.Err? ==> r.error.message == NoSuchPathMessage(name)
  {
    var found := FindFrom(name, 0);
    assert found.None? ==> forall q :: !EqualsIgnoreCase(Path(q), name) by {
      if found.None? {
        forall q ensures !EqualsIgnoreCase(Path(q), name) {
          assert VALUES[Ordinal(q)] == q;
        }
      }
    }
    match found
    case Some(p) => Ok(p)
    case None => Err(IllegalArgument(NoSuchPathMessage(name)))
  }

  /** Two services whose paths are equal ignoring case are the same service. */
  lemma PathIdentifiesService(p: RestServicePath, q: RestServicePath)
    requires EqualsIgnoreCase(Path(p), Path(q))
    ensures p == q
  {
    // Paths of equal length differ at a letter: position 1 for /saveEntity and
    // /initialize and for /findByReferenceId and /saveRelationships, position 8
    // for /executeUpdate and /executeDelete; all other pairs differ in length.
    assert ToLower(Path(SAVE)[1]) != ToLower(Path(INITIALIZE)[1]);
    assert ToLower(Path(FIND_BY_REFERENCE)[1]) != ToLower(Path(SAVE_RELATIONSHIPS)[1]);
    assert ToLower(Path(EXECUTE_UPDATE)[8]) != ToLower(Path(EXECUTE_DELETE)[8]);
  }

  /** Looking up a service's own path, in any case, gives that service back. */
  lemma ValueOfPathRoundTrip(p: RestServicePath, name: string)
    requires EqualsIgnoreCase(Path(p), name)
    ensures ValueOfPath(name) == Ok(p)
  {
    var r := ValueOfPath(name);
    assert r.Ok?;
    EqualsIgnoreCaseSymmetric(Path(p), name);
    EqualsIgnoreCaseTransitive(Path(r.value), name, Path(p));
    PathIdentifiesService(r.value, p);
  }
}
