/**
 * The bookkeeping of the default schema context: the write-ahead log (WAL)
 * file it journals into and its rotation, the memoised data files, the
 * descriptor cache with the partition index handed to each new partition
 * value, and shutdown.
 *
 * The WAL directory is modelled by its entries (name and size, in the order
 * the file system lists them); creating or opening a file is an update of
 * that list. The system persistence manager is not modelled: what its queries
 * would answer (a stored system entity, the values of the partition-entry
 * index, the partition entries with a given index) is passed in.
 */
module SchemaContext {
  import opened Wrappers
  import opened JavaStrings

  /** A WAL file larger than this many bytes is closed and a new one started. */
  const MAX_JOURNAL_SIZE: int := 1024 * 1024 * 20

  /** File.separator, as on a Unix-like system. */
  const SEPARATOR: string := "/"

  datatype ContextError =
    | TransactionFailedToOpenFile   // TransactionException(TRANSACTION_FAILED_TO_OPEN_FILE)
    | NumberFormat                  // Integer.valueOf on a WAL name that is not a number
    | PartitionEntryMissing         // no partition entry carries the requested partition id

  /** The text of the database location in a concatenation: Java renders a null location as "null". */
  function LocationText(location: Option<string>): string {
    if location.None? then "null" else location.value
  }

  /** getWALDirectory: the "wal" sub-directory of the database location, ending in a separator. */
  function WalDirectory(location: Option<string>): (dir: string)
    ensures |dir| == |LocationText(location)| + 5
    ensures dir[..|LocationText(location)|] == LocationText(location)
    ensures dir[|LocationText(location)|..] == "/wal/" && dir[|dir| - 1] == '/'
  {
    LocationText(location) + SEPARATOR + "wal" + SEPARATOR
  }

  // ---------------------------------------------------------------------------
  // The WAL directory
  // ---------------------------------------------------------------------------

  /** A file of the WAL directory: its name within the directory and its size in bytes. */
  datatype WalFile = WalFile(name: string, size: nat)

  ghost predicate DistinctNames(dir: seq<WalFile>) {
    forall i, j :: 0 <= i < j < |dir| ==> dir[i].name != dir[j].name
  }

  /** The name of the WAL file with a given journal index: the decimal index followed by ".wal". */
  function WalName(index: int): string {
    IntToString(index) + WAL_SUFFIX
  }

  /** The index a WAL name stands for: ".wal" removed, then Integer.valueOf; None when that throws. */
  function WalIndexOf(name: string): Option<int> {
    ParseInt(StripWal(name))
  }

  /** The WAL name of an index in the range of `int` reads back as that index. */
  lemma WalNameRoundTrip(index: int)
    requires IsInt(index)
    ensures WalIndexOf(WalName(index)) == Some(index)
  {
    StripWalSuffix(IntToString(index));
    ParseIntToString(index);
  }

  /** File.list of the directory: the names of its files. */
  function Names(dir: seq<WalFile>): (names: seq<string>)
    ensures |names| == |dir| && forall i :: 0 <= i < |dir| ==> names[i] == dir[i].name
  {
    if |dir| == 0 then [] else Names(dir[..|dir| - 1]) + [dir[|dir| - 1].name]
  }

  /** The position of the file named `name`, if the directory has one (File.exists). */
  function Find(dir: seq<WalFile>, name: string): (k: Option<nat>)
    ensures k.Some? ==> k.value < |dir| && dir[k.value].name == name
    ensures k.None? ==> forall i :: 0 <= i < |dir| ==> dir[i].name != name
  {
    if |dir| == 0 then None
    else if dir[|dir| - 1].name == name then Some(|dir| - 1)
    else Find(dir[..|dir| - 1], name)
  }

  /**
   * File.createNewFile: an empty file named `name` is added unless the
   * directory already has one; no file is lost and names stay distinct.
   */
  function CreateNewFile(dir: seq<WalFile>, name: string): (d: seq<WalFile>)
    ensures Find(d, name).Some?
    ensures |d| == |dir| || (|d| == |dir| + 1 && d[|dir|] == WalFile(name, 0) && Find(dir, name).None?)
    ensures forall i :: 0 <= i < |dir| ==> d[i] == dir[i]
    ensures DistinctNames(dir) ==> DistinctNames(d)
  {
    if Find(dir, name).Some? then dir else dir + [WalFile(name, 0)]
  }

  // ---------------------------------------------------------------------------
  // Choosing the WAL file to resume
  // ---------------------------------------------------------------------------

  /**
   * As written: the index is read from the name that ends a listing sorted
   * with String.compareTo, or 0 for an empty listing.
   */
  function ListedIndexAsWritten(names: seq<string>): (r: Result<int, ContextError>)
    ensures |names| == 0 ==> r == Ok(0)
    ensures |names| > 0 ==> (r.Ok? <==> WalIndexOf(LexMax(names)).Some?)
    ensures |names| > 0 && r.Ok? ==> r.value == WalIndexOf(LexMax(names)).value
    ensures r.Err? ==> r.error == NumberFormat
    ensures r.Ok? && |names| > 0 ==> exists i :: 0 <= i < |names| && WalIndexOf(names[i]) == Some(r.value) &&
                                                (forall k :: 0 <= k < |names| ==> !LexLess(names[i], names[k]))
  {
    if |names| == 0 then Ok(0)
    else
      match WalIndexOf(LexMax(names))
      case Some(v) => Ok(v)
      case None => Err(NumberFormat)
  }

  /**
   * The sorted listing ["10.wal", "9.wal"] ends with "9.wal": a directory
   * holding WAL files 9 and 10 resumes at 9, although 10 is the newest.
   */
  lemma WalStartIndexNotLatest()
    ensures ListedIndexAsWritten(["9.wal", "10.wal"]) == Ok(9)
    ensures WalIndexOf("10.wal") == Some(10)
  {
    var names := ["9.wal", "10.wal"];
    TenSortsFirst();
    var last := LexMax(names);
    assert last == "9.wal" by {
      assert last in names;
      assert last != "10.wal";
    }
    WalIndexes();
  }

  lemma TenSortsFirst()
    ensures LexLess("10.wal", "9.wal")
  {
  }

  /**
   * Corrected: every listed name is a WAL name and the index is the greatest
   * of them (0 for an empty listing); a name that is not a number is a
   * NumberFormatException as in the source.
   */
  function ListedIndex(names: seq<string>): (r: Result<int, ContextError>)
    ensures r.Ok? <==> forall i :: 0 <= i < |names| ==> WalIndexOf(names[i]).Some?
    ensures r.Ok? ==> forall i :: 0 <= i < |names| ==> WalIndexOf(names[i]).value <= r.value
    ensures r.Ok? && |names| == 0 ==> r.value == 0
  {
    if |names| == 0 then Ok(0)
    else
      var front := names[..|names| - 1];
      var last := WalIndexOf(names[|names| - 1]);
      var r := ListedIndex(front);
      assert forall i :: 0 <= i < |front| ==> front[i] == names[i];
      if r.Err? then r
      else if last.None? then Err(NumberFormat)
      else if |names| == 1 || last.value > r.value then Ok(last.value)
      else r
  }

  /** The index the corrected rule reads is the index of one of the listed names. */
  lemma {:induction false} ListedIndexIsListed(names: seq<string>)
    ensures ListedIndex(names).Ok? && |names| > 0 ==>
      exists i :: 0 <= i < |names| && WalIndexOf(names[i]) == Some(ListedIndex(names).value)
    decreases |names|
  {
    if |names| > 1 && ListedIndex(names).Ok? {
      var front := names[..|names| - 1];
      ListedIndexIsListed(front);
      var r := ListedIndex(front);
      if ListedIndex(names) == r {
        var i :| 0 <= i < |front| && WalIndexOf(front[i]) == Some(r.value);
        assert names[i] == front[i];
      } else {
        assert WalIndexOf(names[|names| - 1]) == Some(ListedIndex(names).value);
      }
    } else if |names| == 1 && ListedIndex(names).Ok? {
      assert WalIndexOf(names[0]) == Some(ListedIndex(names).value);
    }
  }

  // ---------------------------------------------------------------------------
  // Acquiring the WAL file
  // ---------------------------------------------------------------------------

  /**
   * The journal: the index of the current WAL file, the file the channel is open on (None: not yet
   * opened), whether that channel has been closed while still referenced, and the directory.
   */
  datatype Journal = Journal(index: int, open: Option<string>, closed: bool, dir: seq<WalFile>)

  ghost predicate JournalValid(j: Journal) {
    DistinctNames(j.dir) && (j.open.Some? ==> Find(j.dir, j.open.value).Some?)
  }

  /** The size of the file the channel is open on. */
  function OpenSize(j: Journal): nat
    requires j.open.Some? && Find(j.dir, j.open.value).Some?
  {
    j.dir[Find(j.dir, j.open.value).value].size
  }

  /** Switching to the WAL file of `index`, creating it if it does not exist, on a newly opened channel. */
  function SwitchTo(j: Journal, index: int): (k: Journal)
    ensures k.index == index && k.open == Some(WalName(index)) && !k.closed && Find(k.dir, WalName(index)).Some?
  {
    Journal(index, Some(WalName(index)), false, CreateNewFile(j.dir, WalName(index)))
  }

  /** The two stages of getTransactionFile: the first opening of the channel and the rotation of a full file. */
  datatype Stage = Opening | Rotation

  /**
   * A failing file-system operation of a stage: one that runs before the journal index is advanced
   * (creating or listing the directory; the channel's `size` or `force`), the creation of the WAL
   * file of the new index, or the opening of its channel.
   */
  datatype Step = BeforeIndex | AtCreate | AtOpen

  /**
   * The file-system operation of getTransactionFile that throws IOException, if any. A fault at an
   * operation the call does not reach changes nothing.
   */
  datatype IoFault = NoFault | Fails(stage: Stage, step: Step)

  /** The journal after getTransactionFile, and the error it threw if it failed. */
  datatype Outcome = Outcome(journal: Journal, error: Option<ContextError>)

  /**
   * A first acquisition: the index `listed` read from the directory is added to the journal index,
   * and that WAL file is created if missing and opened. A failure at the creation or the opening
   * comes after the index was advanced, and the index stays advanced.
   */
  function OpenListed(j: Journal, fault: IoFault, listed: Result<int, ContextError>): (r: Outcome)
    ensures fault == Fails(Opening, BeforeIndex) ==> r == Outcome(j, Some(TransactionFailedToOpenFile))
    ensures fault != Fails(Opening, BeforeIndex) && listed.Err? ==> r == Outcome(j, Some(listed.error))
    ensures fault != Fails(Opening, BeforeIndex) && listed.Ok? ==> r.journal.index == j.index + listed.value
    ensures (fault == NoFault || fault.stage == Rotation) ==> (r.error.None? <==> listed.Ok?)
    ensures r.error.None? ==>
      r.journal.open == Some(WalName(r.journal.index)) && !r.journal.closed && Find(r.journal.dir, WalName(r.journal.index)).Some?
    ensures r.error.Some? ==> r.journal.open == j.open && r.journal.closed == j.closed
    ensures r.error.Some? ==> r.error == Some(TransactionFailedToOpenFile) || (listed.Err? && r.error == Some(listed.error))
    ensures |j.dir| <= |r.journal.dir| && forall i :: 0 <= i < |j.dir| ==> r.journal.dir[i] == j.dir[i]
    ensures DistinctNames(j.dir) && j.open.None? ==> JournalValid(r.journal)
  {
    if fault == Fails(Opening, BeforeIndex) then Outcome(j, Some(TransactionFailedToOpenFile))
    else match listed
      case Err(e) => Outcome(j, Some(e))
      case Ok(v) =>
        var index := j.index + v;
        if fault == Fails(Opening, AtCreate) && Find(j.dir, WalName(index)).None? then
          Outcome(j.(index := index), Some(TransactionFailedToOpenFile))
        else if fault == Fails(Opening, AtOpen) then
          Outcome(j.(index := index, dir := CreateNewFile(j.dir, WalName(index))), Some(TransactionFailedToOpenFile))
        else Outcome(SwitchTo(j, index), None)
  }

  /**
   * The rotation: a closed channel fails at its `size`; a WAL file over the size limit is closed
   * and replaced by the file of the next index. A failure at the creation or the opening of that
   * file leaves the index advanced and the closed channel referenced.
   */
  function RotateIfFull(j: Journal, fault: IoFault): (r: Outcome)
    requires j.open.Some? && Find(j.dir, j.open.value).Some?
    ensures j.closed || fault == Fails(Rotation, BeforeIndex) ==> r == Outcome(j, Some(TransactionFailedToOpenFile))
    ensures !j.closed && (fault == NoFault || fault.stage == Opening) && OpenSize(j) <= MAX_JOURNAL_SIZE ==> r == Outcome(j, None)
    ensures !j.closed && (fault == NoFault || fault.stage == Opening) && OpenSize(j) > MAX_JOURNAL_SIZE ==>
      r.error.None? && r.journal.index == j.index + 1 && r.journal.open == Some(WalName(j.index + 1)) && !r.journal.closed
    ensures !j.closed && (fault == Fails(Rotation, AtCreate) || fault == Fails(Rotation, AtOpen)) && OpenSize(j) > MAX_JOURNAL_SIZE ==>
      r.error == Some(TransactionFailedToOpenFile) && r.journal.index == j.index + 1 && r.journal.open == j.open && r.journal.closed
    ensures r.error.None? ==> !r.journal.closed
    ensures r.error.Some? ==> r.error == Some(TransactionFailedToOpenFile)
    ensures r.journal.open.Some? && Find(r.journal.dir, r.journal.open.value).Some?
    ensures |j.dir| <= |r.journal.dir| && forall i :: 0 <= i < |j.dir| ==> r.journal.dir[i] == j.dir[i]
    ensures DistinctNames(j.dir) ==> DistinctNames(r.journal.dir)
  {
    if j.closed || fault == Fails(Rotation, BeforeIndex) then Outcome(j, Some(TransactionFailedToOpenFile))
    else if OpenSize(j) <= MAX_JOURNAL_SIZE then Outcome(j, None)
    else if fault == Fails(Rotation, AtCreate) then
      Outcome(j.(index := j.index + 1, closed := true), Some(TransactionFailedToOpenFile))
    else if fault == Fails(Rotation, AtOpen) then
      Outcome(j.(index := j.index + 1, closed := true, dir := CreateNewFile(j.dir, WalName(j.index + 1))), Some(TransactionFailedToOpenFile))
    else Outcome(SwitchTo(j, j.index + 1), None)
  }

  /**
   * getTransactionFile with the listing rule `listed`: without a channel the listed WAL file is
   * opened; then a full file is rotated. The first failing file-system operation gives
   * TRANSACTION_FAILED_TO_OPEN_FILE, with the journal as far as the call got.
   */
  function AcquireWith(j: Journal, fault: IoFault, listed: Result<int, ContextError>): (r: Outcome)
    requires JournalValid(j)
    ensures fault == NoFault && (if j.open.Some? then !j.closed else listed.Ok?) ==> r.error.None?
    ensures fault == NoFault && j.open.None? && listed.Err? ==> r == Outcome(j, Some(listed.error))
    ensures j.open.Some? && j.closed ==> r == Outcome(j, Some(TransactionFailedToOpenFile))
    ensures r.error.Some? ==> r.error == Some(TransactionFailedToOpenFile) || (j.open.None? && listed.Err? && r.error == Some(listed.error))
    ensures r.error.None? ==> r.journal.open.Some? && !r.journal.closed
    ensures JournalValid(r.journal) && |j.dir| <= |r.journal.dir|
    ensures forall i :: 0 <= i < |j.dir| ==> r.journal.dir[i] == j.dir[i]
  {
    if j.open.None? then
      var o := OpenListed(j, fault, listed);
      if o.error.Some? then o else RotateIfFull(o.journal, fault)
    else RotateIfFull(j, fault)
  }

  /** Acquisition with the corrected listing rule (`ListedIndex`), as the context does it. */
  function Acquire(j: Journal, fault: IoFault): Outcome
    requires JournalValid(j)
  {
    AcquireWith(j, fault, ListedIndex(Names(j.dir)))
  }

  /** Acquisition as written: the index is read from the name that sorts last (`ListedIndexAsWritten`). */
  function AcquireAsWritten(j: Journal, fault: IoFault): Outcome
    requires JournalValid(j)
  {
    AcquireWith(j, fault, ListedIndexAsWritten(Names(j.dir)))
  }

  /** With the corrected rule, a first acquisition without a fault succeeds iff every listed name is a WAL name. */
  lemma AcquireSucceeds(j: Journal)
    requires JournalValid(j) && j.open.None?
    ensures Acquire(j, NoFault).error.None? <==> forall i :: 0 <= i < |j.dir| ==> WalIndexOf(j.dir[i].name).Some?
  {
  }

  /** As written, a first acquisition without a fault succeeds iff the name that sorts last is a WAL name. */
  lemma AcquireAsWrittenSucceeds(j: Journal)
    requires JournalValid(j) && j.open.None? && |j.dir| > 0
    ensures AcquireAsWritten(j, NoFault).error.None? <==> WalIndexOf(LexMax(Names(j.dir))).Some?
  {
  }

  /**
   * With an open channel and no failure, a file not over the limit is returned
   * as it is and nothing changes; a file over the limit is replaced by the file
   * of the next index, created if missing.
   */
  lemma RotationRule(j: Journal)
    requires JournalValid(j) && j.open.Some? && !j.closed
    ensures OpenSize(j) <= MAX_JOURNAL_SIZE ==> Acquire(j, NoFault) == Outcome(j, None)
    ensures OpenSize(j) > MAX_JOURNAL_SIZE ==>
      var k := Acquire(j, NoFault).journal;
      Acquire(j, NoFault).error.None? && k.index == j.index + 1 && k.open == Some(WalName(j.index + 1)) &&
      Find(k.dir, WalName(j.index + 1)).Some?
  {
  }

  /**
   * A first acquisition from journal index 0 opens a WAL file whose index is
   * at least that of every file in the directory: no WAL file is newer.
   */
  lemma OpensLatestWal(j: Journal)
    requires JournalValid(j) && j.open.None? && j.index == 0 && Acquire(j, NoFault).error.None?
    ensures forall i :: 0 <= i < |j.dir| ==>
      WalIndexOf(j.dir[i].name).Some? && WalIndexOf(j.dir[i].name).value <= Acquire(j, NoFault).journal.index
  {
    var names := Names(j.dir);
    assert forall i :: 0 <= i < |j.dir| ==> names[i] == j.dir[i].name;
  }

  /**
   * A first acquisition whose creation of the WAL file fails leaves the listed index added
   * to the journal index; the next acquisition lists the same directory and adds it again,
   * so with index 0 and 3.wal listed, the retry opens 6.wal or a later file.
   */
  lemma RetryAddsListingTwice(j: Journal, v: int)
    requires JournalValid(j) && j.open.None? && ListedIndex(Names(j.dir)) == Ok(v)
    requires Find(j.dir, WalName(j.index + v)).None?
    ensures var f := Acquire(j, Fails(Opening, AtCreate));
      f == Outcome(j.(index := j.index + v), Some(TransactionFailedToOpenFile)) &&
      Acquire(f.journal, NoFault).error.None? && Acquire(f.journal, NoFault).journal.index >= j.index + 2 * v
  {
    RetrySteps(j, v);
    assert Acquire(j, Fails(Opening, AtCreate)) == AcquireWith(j, Fails(Opening, AtCreate), Ok(v));
    var j1 := j.(index := j.index + v);
    assert Names(j1.dir) == Names(j.dir);
    assert Acquire(j1, NoFault) == AcquireWith(j1, NoFault, Ok(v));
  }

  /** The two acquisitions of `RetryAddsListingTwice` once the listing gave `v`. */
  lemma RetrySteps(j: Journal, v: int)
    requires JournalValid(j) && j.open.None? && Find(j.dir, WalName(j.index + v)).None?
    ensures AcquireWith(j, Fails(Opening, AtCreate), Ok(v)) == Outcome(j.(index := j.index + v), Some(TransactionFailedToOpenFile))
    ensures JournalValid(j.(index := j.index + v))
    ensures var k := AcquireWith(j.(index := j.index + v), NoFault, Ok(v)); k.error.None? && k.journal.index >= j.index + 2 * v
  {
    OpeningSteps(j, Fails(Opening, AtCreate), v);
    var j1 := j.(index := j.index + v);
    var o := OpenListed(j1, NoFault, Ok(v));
    assert o.error.None? && o.journal.index == j.index + 2 * v;
    var k := RotateIfFull(o.journal, NoFault);
    assert k.error.None? && k.journal.index >= o.journal.index;
  }

  /** A first opening, step by step, once the directory listing gave `v`. */
  lemma OpeningSteps(j: Journal, fault: IoFault, v: int)
    requires fault != Fails(Opening, BeforeIndex)
    ensures OpenListed(j, fault, Ok(v)) ==
      if fault == Fails(Opening, AtCreate) && Find(j.dir, WalName(j.index + v)).None? then
        Outcome(j.(index := j.index + v), Some(TransactionFailedToOpenFile))
      else if fault == Fails(Opening, AtOpen) then
        Outcome(j.(index := j.index + v, dir := CreateNewFile(j.dir, WalName(j.index + v))), Some(TransactionFailedToOpenFile))
      else Outcome(SwitchTo(j, j.index + v), None)
  {
  }

  /**
   * A rotation that fails after closing the full file leaves the index advanced and the closed
   * channel referenced: every later acquisition fails at the channel's `size`, whatever happens.
   */
  lemma FailedRotationSticks(j: Journal, step: Step, later: IoFault)
    requires JournalValid(j) && j.open.Some? && !j.closed && OpenSize(j) > MAX_JOURNAL_SIZE && step != BeforeIndex
    ensures var f := Acquire(j, Fails(Rotation, step));
      f.error == Some(TransactionFailedToOpenFile) && f.journal.index == j.index + 1 && f.journal.closed &&
      Acquire(f.journal, later) == Outcome(f.journal, Some(TransactionFailedToOpenFile))
  {
  }

  /**
   * A directory holding 9.wal and 10.wal, both over the size limit, and
   * 11.wal, still open for writing. The listing sorts as 10.wal, 11.wal,
   * 9.wal, so as written the first acquisition after start-up resumes at 9,
   * rotates once and journals into the already-full 10.wal (the next
   * acquisition rotates to 11.wal); the corrected rule resumes at 11.
   */
  lemma WalResumesFullFile(j: Journal)
    requires j == Journal(0, None, false, ThreeWals())
    ensures JournalValid(j)
    ensures AcquireAsWritten(j, NoFault) == Outcome(Journal(10, Some("10.wal"), false, j.dir), None)
    ensures OpenSize(AcquireAsWritten(j, NoFault).journal) > MAX_JOURNAL_SIZE
    ensures Acquire(j, NoFault) == Outcome(Journal(11, Some("11.wal"), false, j.dir), None)
  {
    ThreeWalsFound();
    ThreeWalsListed(Names(j.dir));
    NineOpened(j);
    ElevenOpened(j);
  }

  /** Opening the three files at index 9 ends in the full 10.wal. */
  lemma NineOpened(j: Journal)
    requires j == Journal(0, None, false, ThreeWals())
    ensures JournalValid(j)
    ensures AcquireWith(j, NoFault, Ok(9)) == Outcome(Journal(10, Some("10.wal"), false, j.dir), None)
  {
    ThreeWalsFound();
    FirstAcquisition(j, 9);
    NineRotatesToTen();
  }

  /** Opening the three files at index 11 keeps 11.wal. */
  lemma ElevenOpened(j: Journal)
    requires j == Journal(0, None, false, ThreeWals())
    ensures JournalValid(j)
    ensures AcquireWith(j, NoFault, Ok(11)) == Outcome(Journal(11, Some("11.wal"), false, j.dir), None)
  {
    ThreeWalsFound();
    FirstAcquisition(j, 11);
    ElevenIsKept();
  }

  /** A first acquisition without a fault opens the listed WAL file, then rotates it if full. */
  lemma FirstAcquisition(j: Journal, v: int)
    requires JournalValid(j) && j.open.None?
    ensures AcquireWith(j, NoFault, Ok(v)) == RotateIfFull(SwitchTo(j, j.index + v), NoFault)
  {
    OpeningSteps(j, NoFault, v);
  }

  /** Opening 9.wal of the three files finds it full and rotates to 10.wal, which is full too. */
  lemma NineRotatesToTen()
    ensures SwitchTo(Journal(0, None, false, ThreeWals()), 9) == Journal(9, Some("9.wal"), false, ThreeWals())
    ensures RotateIfFull(Journal(9, Some("9.wal"), false, ThreeWals()), NoFault) ==
      Outcome(Journal(10, Some("10.wal"), false, ThreeWals()), None)
    ensures OpenSize(Journal(10, Some("10.wal"), false, ThreeWals())) > MAX_JOURNAL_SIZE
  {
    ThreeWalsFound();
    WalIndexes();
    var first := Journal(9, Some("9.wal"), false, ThreeWals());
    RotationSteps(first, NoFault);
  }

  /** Opening 11.wal of the three files finds it below the limit and keeps it. */
  lemma ElevenIsKept()
    ensures SwitchTo(Journal(0, None, false, ThreeWals()), 11) == Journal(11, Some("11.wal"), false, ThreeWals())
    ensures RotateIfFull(Journal(11, Some("11.wal"), false, ThreeWals()), NoFault) ==
      Outcome(Journal(11, Some("11.wal"), false, ThreeWals()), None)
  {
    ThreeWalsFound();
    WalIndexes();
    RotationSteps(Journal(11, Some("11.wal"), false, ThreeWals()), NoFault);
  }

  /** The rotation of an open channel's file, step by step, once its `size` has been read. */
  lemma RotationSteps(j: Journal, fault: IoFault)
    requires j.open.Some? && Find(j.dir, j.open.value).Some? && !j.closed && fault != Fails(Rotation, BeforeIndex)
    ensures RotateIfFull(j, fault) ==
      if OpenSize(j) <= MAX_JOURNAL_SIZE then Outcome(j, None)
      else if fault == Fails(Rotation, AtCreate) then
        Outcome(j.(index := j.index + 1, closed := true), Some(TransactionFailedToOpenFile))
      else if fault == Fails(Rotation, AtOpen) then
        Outcome(j.(index := j.index + 1, closed := true, dir := CreateNewFile(j.dir, WalName(j.index + 1))), Some(TransactionFailedToOpenFile))
      else Outcome(SwitchTo(j, j.index + 1), None)
  {
  }

  /** WAL files 9 and 10 over the size limit and 11 still empty, in that listing order. */
  function ThreeWals(): seq<WalFile> {
    [WalFile("9.wal", MAX_JOURNAL_SIZE + 1), WalFile("10.wal", MAX_JOURNAL_SIZE + 1), WalFile("11.wal", 0)]
  }

  lemma ThreeWalsFound()
    ensures DistinctNames(ThreeWals())
    ensures Find(ThreeWals(), "9.wal") == Some(0) && Find(ThreeWals(), "10.wal") == Some(1) && Find(ThreeWals(), "11.wal") == Some(2)
  {
  }

  /** The listing of the three files: as written it resumes at 9, corrected at 11. */
  lemma ThreeWalsListed(names: seq<string>)
    requires names == Names(ThreeWals())
    ensures ListedIndexAsWritten(names) == Ok(9) && ListedIndex(names) == Ok(11)
  {
    ThreeWalsNames(names);
    WalIndexes();
    NineSortsLast(names);
    LatestIsEleven(names);
  }

  lemma ThreeWalsNames(names: seq<string>)
    requires names == Names(ThreeWals())
    ensures names == ["9.wal", "10.wal", "11.wal"]
  {
  }

  lemma NineSortsLast(names: seq<string>)
    requires names == ["9.wal", "10.wal", "11.wal"]
    ensures LexMax(names) == "9.wal"
  {
    assert LexLess("10.wal", "9.wal") && LexLess("11.wal", "9.wal");
    var last := LexMax(names);
    assert last in names;
    assert last != "10.wal" && last != "11.wal";
  }

  lemma LatestIsEleven(names: seq<string>)
    requires |names| == 3
    requires WalIndexOf(names[0]) == Some(9) && WalIndexOf(names[1]) == Some(10) && WalIndexOf(names[2]) == Some(11)
    ensures ListedIndex(names) == Ok(11)
  {
    LatestOfThree(names, 9, 10, 11);
  }

  /** Three listed WAL names, the last with the greatest index: the corrected rule reads that index. */
  lemma LatestOfThree(names: seq<string>, a: int, b: int, c: int)
    requires |names| == 3 && a <= c && b <= c
    requires WalIndexOf(names[0]) == Some(a) && WalIndexOf(names[1]) == Some(b) && WalIndexOf(names[2]) == Some(c)
    ensures ListedIndex(names) == Ok(c)
  {
    forall i | 0 <= i < |names|
      ensures WalIndexOf(names[i]).Some? && WalIndexOf(names[i]).value <= c
    {
      assert i == 0 || i == 1 || i == 2;
    }
    ListedIndexIsMax(names, 2);
  }

  /** When some listed name carries an index no other listed name exceeds, the corrected rule reads that index. */
  lemma ListedIndexIsMax(names: seq<string>, k: int)
    requires 0 <= k < |names| && WalIndexOf(names[k]).Some?
    requires forall i :: 0 <= i < |names| ==> WalIndexOf(names[i]).Some? && WalIndexOf(names[i]).value <= WalIndexOf(names[k]).value
    ensures ListedIndex(names) == Ok(WalIndexOf(names[k]).value)
  {
    var v := WalIndexOf(names[k]).value;
    var r := ListedIndex(names);
    assert r.Ok?;
    assert v <= r.value;
    ListedIndexIsListed(names);
    var i :| 0 <= i < |names| && WalIndexOf(names[i]) == Some(r.value);
    assert r.value <= v;
  }

  lemma WalIndexes()
    ensures WalIndexOf("9.wal") == Some(9) && WalIndexOf("10.wal") == Some(10) && WalIndexOf("11.wal") == Some(11)
    ensures WalName(9) == "9.wal" && WalName(10) == "10.wal" && WalName(11) == "11.wal"
  {
    WalNine();
    WalTen();
    WalEleven();
  }

  lemma WalNine()
    ensures WalName(9) == "9.wal" && WalIndexOf("9.wal") == Some(9)
  {
    WalNameRoundTrip(9);
    assert WalName(9) == "9.wal";
  }

  lemma WalTen()
    ensures WalName(10) == "10.wal" && WalIndexOf("10.wal") == Some(10)
  {
    WalNameRoundTrip(10);
    assert WalName(10) == "10.wal";
  }

  lemma WalEleven()
    ensures WalName(11) == "11.wal" && WalIndexOf("11.wal") == Some(11)
  {
    WalNameRoundTrip(11);
    assert WalName(11) == "11.wal";
  }


  // ---------------------------------------------------------------------------
  // Entity descriptors, data files and partition entries
  // ---------------------------------------------------------------------------

  /** An entity class: its canonical name, the file name of its @Entity annotation, and whether it has a partition field. */
  datatype EntityClass = EntityClass(canonicalName: string, fileName: string, partitioned: bool)

  /** An entity descriptor: its class and, for a partitioned class, the partition value it was made for. */
  datatype EntityDescriptor = EntityDescriptor(entity: EntityClass, partitionValue: Option<string>)

  /** The storage of one data file, by the path it was created with. */
  datatype MapBuilder = MapBuilder(path: string)

  /** A partition value of an entity and the partition index handed to it. */
  datatype PartitionEntry = PartitionEntry(value: string, index: int)

  /** The stored description of an entity class, with the entries of its partition when it has one. */
  datatype SystemEntity = SystemEntity(name: string, partition: Option<seq<PartitionEntry>>)

  const SYSTEM_ENTITY: string := "com.onyx.entity.SystemEntity"
  const SYSTEM_ATTRIBUTE: string := "com.onyx.entity.SystemAttribute"
  const SYSTEM_RELATIONSHIP: string := "com.onyx.entity.SystemRelationship"
  const SYSTEM_INDEX: string := "com.onyx.entity.SystemIndex"
  const SYSTEM_IDENTIFIER: string := "com.onyx.entity.SystemIdentifier"
  const SYSTEM_PARTITION: string := "com.onyx.entity.SystemPartition"
  const SYSTEM_PARTITION_ENTRY: string := "com.onyx.entity.SystemPartitionEntry"

  /** The descriptor of a system class: stored in the "system" file, without a partition. */
  function SystemDescriptor(name: string): EntityDescriptor {
    EntityDescriptor(EntityClass(name, "system", false), None)
  }

  /** The descriptors of the seven system classes, by canonical name. */
  function SystemDescriptors(): (m: map<string, EntityDescriptor>)
    ensures SYSTEM_ENTITY in m && SYSTEM_ATTRIBUTE in m && SYSTEM_PARTITION_ENTRY in m
  {
    map[SYSTEM_ENTITY := SystemDescriptor(SYSTEM_ENTITY),
        SYSTEM_ATTRIBUTE := SystemDescriptor(SYSTEM_ATTRIBUTE),
        SYSTEM_RELATIONSHIP := SystemDescriptor(SYSTEM_RELATIONSHIP),
        SYSTEM_INDEX := SystemDescriptor(SYSTEM_INDEX),
        SYSTEM_IDENTIFIER := SystemDescriptor(SYSTEM_IDENTIFIER),
        SYSTEM_PARTITION := SystemDescriptor(SYSTEM_PARTITION),
        SYSTEM_PARTITION_ENTRY := SystemDescriptor(SYSTEM_PARTITION_ENTRY)]
  }

  /** A partition id as text: null is "", anything else its String.valueOf. */
  function PartitionText(partitionId: Option<string>): string {
    if partitionId.None? then "" else partitionId.value
  }

  /** The descriptor cache key: the class's canonical name followed by the partition id's text. */
  function EntityKey(entity: EntityClass, partitionId: Option<string>): string {
    entity.canonicalName + PartitionText(partitionId)
  }

  /** A new descriptor; a partitioned class records the partition id's text as its partition value. */
  function NewDescriptor(entity: EntityClass, partitionId: Option<string>): (d: EntityDescriptor)
    ensures d.entity == entity
    ensures d.partitionValue.Some? <==> entity.partitioned
    ensures d.partitionValue.Some? ==> d.partitionValue.value == PartitionText(partitionId)
  {
    EntityDescriptor(entity, if entity.partitioned then Some(PartitionText(partitionId)) else None)
  }

  /** Whether the system descriptors are (re)installed and the partition counter seeded again. */
  predicate NeedsSystemDescriptors(descriptors: map<string, EntityDescriptor>, entity: EntityClass) {
    SYSTEM_ENTITY !in descriptors || (entity.canonicalName == SYSTEM_ENTITY && SYSTEM_ATTRIBUTE !in descriptors)
  }

  /** The system entity of a class: the cached one, else the stored one, else a new one without partition. */
  function SystemEntityFor(cache: map<string, SystemEntity>, name: string, stored: Option<SystemEntity>): SystemEntity {
    if name in cache then cache[name]
    else if stored.Some? then stored.value
    else SystemEntity(name, None)
  }

  /** The first partition entry carrying `value`. */
  function FirstWithValue(entries: seq<PartitionEntry>, value: string): (k: Option<nat>)
    ensures k.Some? ==> k.value < |entries| && entries[k.value].value == value
    ensures k.Some? ==> forall i :: 0 <= i < k.value ==> entries[i].value != value
    ensures k.None? ==> forall i :: 0 <= i < |entries| ==> entries[i].value != value
  {
    if |entries| == 0 then None
    else if entries[0].value == value then Some(0)
    else
      match FirstWithValue(entries[1..], value)
      case None => None
      case Some(j) => Some(j + 1)
  }

  /**
   * The partition index of a descriptor's partition value: a value the
   * system entity already has an entry for keeps it; any other value gets a
   * new entry with the next counter value.
   */
  function AssignPartition(se: SystemEntity, value: Option<string>, counter: int): (r: (SystemEntity, int))
    ensures r.0.name == se.name
    ensures value.None? ==> r == (se, counter)
    ensures value.Some? ==> r.0.partition.Some? && FirstWithValue(r.0.partition.value, value.value).Some?
    ensures r.1 == counter || (r.1 == counter + 1 && r.0.partition.value[|r.0.partition.value| - 1] == PartitionEntry(value.value, r.1))
  {
    if value.None? then (se, counter)
    else if se.partition.Some? && FirstWithValue(se.partition.value, value.value).Some? then (se, counter)
    else
      var entries := if se.partition.Some? then se.partition.value else [];
      var entries' := entries + [PartitionEntry(value.value, counter + 1)];
      assert entries'[|entries|].value == value.value;
      (SystemEntity(se.name, Some(entries')), counter + 1)
  }

  /** No two partition entries of a system entity share an index. */
  ghost predicate DistinctIndexes(se: SystemEntity) {
    se.partition.Some? ==>
      forall i, j :: 0 <= i < j < |se.partition.value| ==> se.partition.value[i].index != se.partition.value[j].index
  }

  /** Every partition index of a system entity is at most `counter`, and no two entries share one. */
  ghost predicate IndexesBelow(se: SystemEntity, counter: int) {
    DistinctIndexes(se) &&
    (se.partition.Some? ==> forall i :: 0 <= i < |se.partition.value| ==> se.partition.value[i].index <= counter)
  }

  /** A value that already has an entry reuses it: the entries and the counter are unchanged. */
  lemma PartitionValueReused(se: SystemEntity, value: string, counter: int)
    requires se.partition.Some? && exists i :: 0 <= i < |se.partition.value| && se.partition.value[i].value == value
    ensures AssignPartition(se, Some(value), counter) == (se, counter)
  {
  }

  /**
   * A new partition value gets the index `counter + 1`, above every index
   * handed out before: indices strictly increase, are never reused, and the
   * value then has an entry.
   */
  lemma PartitionIndexFresh(se: SystemEntity, value: string, counter: int)
    requires IndexesBelow(se, counter)
    ensures var (se', next) := AssignPartition(se, Some(value), counter);
      IndexesBelow(se', next) && next >= counter &&
      se'.partition.Some? && FirstWithValue(se'.partition.value, value).Some?
    ensures se.partition.None? || FirstWithValue(se.partition.value, value).None? ==>
      var (se', next) := AssignPartition(se, Some(value), counter);
      next == counter + 1 && se'.partition.value[|se'.partition.value| - 1] == PartitionEntry(value, next)
  {
    var (se', next) := AssignPartition(se, Some(value), counter);
    if !(se.partition.Some? && FirstWithValue(se.partition.value, value).Some?) {
      var entries := if se.partition.Some? then se.partition.value else [];
      var e' := se'.partition.value;
      assert e' == entries + [PartitionEntry(value, next)];
      assert forall i :: 0 <= i < |entries| ==> e'[i] == entries[i];
      assert e'[|entries|].value == value;
    }
  }

  /** The key of a data file: the descriptor's file name, followed by its partition value when it has one. */
  function DataFileKey(d: EntityDescriptor): string {
    d.entity.fileName + (if d.partitionValue.None? then "" else d.partitionValue.value)
  }

  /** getDataFile: the memoised builder of the key, or a new one at `location + "/" + key` put into the map. */
  function DataFile(dataFiles: map<string, MapBuilder>, location: Option<string>,
                    d: EntityDescriptor): (r: (MapBuilder, map<string, MapBuilder>))
    ensures DataFileKey(d) in r.1 && r.1[DataFileKey(d)] == r.0
    ensures r.1.Keys == dataFiles.Keys + {DataFileKey(d)}
    ensures forall k :: k in dataFiles ==> r.1[k] == dataFiles[k]
    ensures DataFileKey(d) !in dataFiles ==> r.0 == MapBuilder(LocationText(location) + "/" + DataFileKey(d))
  {
    var key := DataFileKey(d);
    if key in dataFiles then (dataFiles[key], dataFiles)
    else
      var b := MapBuilder(LocationText(location) + "/" + key);
      (b, dataFiles[key := b])
  }

  /** Asking again for a data file returns the same builder and changes nothing. */
  lemma DataFileMemoised(dataFiles: map<string, MapBuilder>, location: Option<string>, d: EntityDescriptor)
    ensures var (b, files) := DataFile(dataFiles, location, d);
      DataFile(files, location, d) == (b, files)
  {
  }

  /**
   * Descriptors of one class for different partition values use different
   * data files; for the same value the same one.
   */
  lemma DataFilePerPartition(entity: EntityClass, v1: string, v2: string)
    requires entity.partitioned
    ensures DataFileKey(NewDescriptor(entity, Some(v1))) == DataFileKey(NewDescriptor(entity, Some(v2))) <==> v1 == v2
  {
    var f := entity.fileName;
    if f + v1 == f + v2 {
      assert v1 == (f + v1)[|f|..];
    }
  }

  /** A descriptor put into an empty cache always reinstalls the system descriptors and seeds the counter again. */
  lemma EmptyCacheSeeds(entity: EntityClass, partitionId: Option<string>, d: EntityDescriptor)
    requires EntityKey(entity, partitionId) != SYSTEM_ENTITY || entity.canonicalName == SYSTEM_ENTITY
    ensures NeedsSystemDescriptors(map[EntityKey(entity, partitionId) := d], entity)
  {
    var key := EntityKey(entity, partitionId);
    if key == SYSTEM_ENTITY && entity.canonicalName == SYSTEM_ENTITY {
      assert SYSTEM_ATTRIBUTE != SYSTEM_ENTITY by {
        assert |SYSTEM_ATTRIBUTE| != |SYSTEM_ENTITY|;
      }
    }
  }

  /** The largest value of the partition-entry index, or 0 when it has no value above 0. */
  function MaxOrZero(values: seq<int>): (m: int)
    ensures m >= 0 && forall i :: 0 <= i < |values| ==> values[i] <= m
    ensures m == 0 || exists i :: 0 <= i < |values| && values[i] == m
  {
    if |values| == 0 then 0
    else
      var f := MaxOrZero(values[..|values| - 1]);
      assert forall i :: 0 <= i < |values| - 1 ==> values[..|values| - 1][i] == values[i];
      if values[|values| - 1] > f then values[|values| - 1] else f
  }

  /** The descriptor cache, the partition counter and the cached system entities. */
  datatype DescriptorState = DescriptorState(descriptors: map<string, EntityDescriptor>, partitions: int,
                                             systemEntities: map<string, SystemEntity>)

  /**
   * getDescriptorForEntity: a cached descriptor is answered and nothing
   * changes. Otherwise a new descriptor is cached, the system descriptors are
   * installed and the partition counter seeded when needed, and the
   * partition value gets its index in the class's system entity. `stored` is
   * the system entity the system store holds for the class, `indexValues`
   * the values of the partition-entry index.
   */
  function DescriptorFor(s: DescriptorState, entity: EntityClass, partitionId: Option<string>,
                         stored: Option<SystemEntity>, indexValues: seq<int>): (r: (EntityDescriptor, DescriptorState))
    ensures EntityKey(entity, partitionId) in s.descriptors ==> r == (s.descriptors[EntityKey(entity, partitionId)], s)
    ensures EntityKey(entity, partitionId) !in s.descriptors ==> r.0 == NewDescriptor(entity, partitionId)
    ensures s.descriptors.Keys + {EntityKey(entity, partitionId)} <= r.1.descriptors.Keys
    ensures EntityKey(entity, partitionId) !in s.descriptors ==> SYSTEM_ENTITY in r.1.descriptors
    ensures EntityKey(entity, partitionId) !in s.descriptors ==>
      var se := SystemEntityFor(s.systemEntities, entity.canonicalName, stored);
      r.1.systemEntities.Keys == s.systemEntities.Keys + {se.name} &&
      (forall n :: n in s.systemEntities && n != se.name ==> r.1.systemEntities[n] == s.systemEntities[n]) &&
      (r.0.partitionValue.None? ==> r.1.systemEntities[se.name] == se)
  {
    var key := EntityKey(entity, partitionId);
    if key in s.descriptors then (s.descriptors[key], s)
    else
      var d := NewDescriptor(entity, partitionId);
      var put := s.descriptors[key := d];
      var seeded := NeedsSystemDescriptors(put, entity);
      var counter := if seeded then MaxOrZero(indexValues) else s.partitions;
      var outcome := AssignPartition(SystemEntityFor(s.systemEntities, entity.canonicalName, stored), d.partitionValue, counter);
      (d, DescriptorState(if seeded then put + SystemDescriptors() else put,
                          outcome.1,
                          s.systemEntities[outcome.0.name := outcome.0]))
  }

  /**
   * The partition counter keeps pace with the indices handed out: when the
   * stored entries' indices are values of the partition-entry index, and the
   * counter is at least every such value unless it is seeded again, then
   * the system entity getDescriptorForEntity stores has distinct indices
   * none above the new counter, and the new counter is at least every index
   * value.
   */
  lemma DescriptorKeepsIndexesBelow(s: DescriptorState, entity: EntityClass, partitionId: Option<string>,
                                    stored: Option<SystemEntity>, indexValues: seq<int>)
    requires EntityKey(entity, partitionId) !in s.descriptors
    requires var se := SystemEntityFor(s.systemEntities, entity.canonicalName, stored);
      DistinctIndexes(se) &&
      (se.partition.Some? ==> forall i :: 0 <= i < |se.partition.value| ==> se.partition.value[i].index in indexValues)
    requires !NeedsSystemDescriptors(s.descriptors[EntityKey(entity, partitionId) := NewDescriptor(entity, partitionId)], entity) ==>
      forall i :: 0 <= i < |indexValues| ==> indexValues[i] <= s.partitions
    ensures var se := SystemEntityFor(s.systemEntities, entity.canonicalName, stored);
      var s' := DescriptorFor(s, entity, partitionId, stored, indexValues).1;
      IndexesBelow(s'.systemEntities[se.name], s'.partitions) &&
      forall i :: 0 <= i < |indexValues| ==> indexValues[i] <= s'.partitions
  {
    var key := EntityKey(entity, partitionId);
    var d := NewDescriptor(entity, partitionId);
    var seeded := NeedsSystemDescriptors(s.descriptors[key := d], entity);
    var counter := if seeded then MaxOrZero(indexValues) else s.partitions;
    var se := SystemEntityFor(s.systemEntities, entity.canonicalName, stored);
    assert forall i :: 0 <= i < |indexValues| ==> indexValues[i] <= counter;
    assert IndexesBelow(se, counter) by {
      if se.partition.Some? {
        forall i | 0 <= i < |se.partition.value|
          ensures se.partition.value[i].index <= counter
        {
          var k :| 0 <= k < |indexValues| && indexValues[k] == se.partition.value[i].index;
        }
      }
    }
    if d.partitionValue.Some? {
      PartitionIndexFresh(se, d.partitionValue.value, counter);
    }
  }

  /** The search of a system entity's partition entries for a partition value. */
  method FindPartitionEntry(entries: seq<PartitionEntry>, value: string) returns (found: bool, index: int)
    ensures found == FirstWithValue(entries, value).Some?
    ensures found ==> index == entries[FirstWithValue(entries, value).value].index
  {
    found := false;
    index := 0;
    var i := 0;
    while i < |entries|
      invariant 0 <= i <= |entries|
      invariant forall j :: 0 <= j < i ==> entries[j].value != value
    {
      if entries[i].value == value {
        index := entries[i].index;
        found := true;
        break;
      }
      i := i + 1;
    }
  }

  /** The loop seeding the partition counter: the largest value of the partition-entry index, from 0. */
  method MaxIndex(values: seq<int>) returns (max: int)
    ensures max == MaxOrZero(values)
  {
    max := 0;
    var k := 0;
    while k < |values|
      invariant 0 <= k <= |values|
      invariant max == MaxOrZero(values[..k])
    {
      assert values[..k + 1][..k] == values[..k];
      if values[k] > max {
        max := values[k];
      }
      k := k + 1;
    }
    assert values[..|values|] == values;
  }

  // ---------------------------------------------------------------------------
  // The context
  // ---------------------------------------------------------------------------

  class DefaultSchemaContext {
    var location: Option<string>
    var killSwitch: bool
    /** The journal index (`journalFileIndex`). */
    var journalFileIndex: int
    /** The WAL file `lastWalFileChannel` is open on; None while it is null. */
    var lastWalFile: Option<string>
    /** Whether `lastWalFileChannel` has been closed while still referenced. */
    var channelClosed: bool
    /** The WAL directory. */
    var walDirectory: seq<WalFile>
    var dataFiles: map<string, MapBuilder>
    var descriptors: map<string, EntityDescriptor>
    /** The partition counter. */
    var partitions: int
    var defaultSystemEntities: map<string, SystemEntity>
    /** The descriptors a record, relationship or index controller is cached for. */
    var recordControllers: set<EntityDescriptor>
    var relationshipControllers: set<string>
    var indexControllers: set<string>

    ghost function JournalState(): Journal
      reads this
    {
      Journal(journalFileIndex, lastWalFile, channelClosed, walDirectory)
    }

    ghost predicate Valid()
      reads this
    {
      JournalValid(JournalState())
    }

    ghost function DescriptorCache(): DescriptorState
      reads this
    {
      DescriptorState(descriptors, partitions, defaultSystemEntities)
    }

    /** A new context over a database location whose WAL directory holds `existing`. */
    constructor (location: Option<string>, existing: seq<WalFile>)
      requires DistinctNames(existing)
      ensures Valid()
      ensures this.location == location && !killSwitch
      ensures JournalState() == Journal(0, None, false, existing)
      ensures dataFiles == map[] && descriptors == map[] && partitions == 0 && defaultSystemEntities == map[]
      ensures recordControllers == {} && relationshipControllers == {} && indexControllers == {}
    {
      this.location := location;
      killSwitch := false;
      journalFileIndex := 0;
      lastWalFile := None;
      channelClosed := false;
      walDirectory := existing;
      dataFiles := map[];
      descriptors := map[];
      partitions := 0;
      defaultSystemEntities := map[];
      recordControllers := {};
      relationshipControllers := {};
      indexControllers := {};
    }

    /**
     * getTransactionFile: the path of the WAL file to journal into, opened
     * and rotated as `Acquire` says; `fault` is the file-system operation
     * that throws, if any.
     */
    method GetTransactionFile(fault: IoFault) returns (r: Result<string, ContextError>)
      requires Valid()
      modifies this`journalFileIndex, this`lastWalFile, this`channelClosed, this`walDirectory
      ensures Valid()
      ensures JournalState() == Acquire(old(JournalState()), fault).journal
      ensures Acquire(old(JournalState()), fault).error.Some? ==> r == Err(Acquire(old(JournalState()), fault).error.value)
      ensures Acquire(old(JournalState()), fault).error.None? ==> lastWalFile.Some? && r == Ok(WalDirectory(location) + lastWalFile.value)
    {
      if lastWalFile.None? {
        var failure := OpenListedWal(fault);
        if failure.Some? {
          return Err(failure.value);
        }
      }
      var failure := RotateIfFullWal(fault);
      if failure.Some? {
        return Err(failure.value);
      }
      r := Ok(WalDirectory(location) + lastWalFile.value);
    }

    /**
     * The first acquisition: the listed index is added to the journal index, and that WAL file
     * is created if missing and opened; a creation or opening that fails leaves the index advanced.
     */
    method OpenListedWal(fault: IoFault) returns (failure: Option<ContextError>)
      requires Valid() && lastWalFile.None?
      modifies this`journalFileIndex, this`lastWalFile, this`channelClosed, this`walDirectory
      ensures Valid()
      ensures var o := OpenListed(old(JournalState()), fault, ListedIndex(Names(old(walDirectory))));
        failure == o.error && JournalState() == o.journal
    {
      if fault == Fails(Opening, BeforeIndex) {
        return Some(TransactionFailedToOpenFile);
      }
      var listed := ListedIndex(Names(walDirectory));
      if listed.Err? {
        return Some(listed.error);
      }
      failure := OpenWalAt(listed.value, fault);
    }

    /** The first acquisition once the directory listing gave `v`: the steps after the index is advanced. */
    method OpenWalAt(v: int, fault: IoFault) returns (failure: Option<ContextError>)
      requires Valid() && lastWalFile.None? && fault != Fails(Opening, BeforeIndex)
      modifies this`journalFileIndex, this`lastWalFile, this`channelClosed, this`walDirectory
      ensures Valid()
      ensures var o := OpenListed(old(JournalState()), fault, Ok(v)); failure == o.error && JournalState() == o.journal
    {
      ghost var j := JournalState();
      OpeningSteps(j, fault, v);
      var index := journalFileIndex + v;
      var name := WalName(index);
      if Find(walDirectory, name).None? && fault == Fails(Opening, AtCreate) {
        journalFileIndex := index;
        assert JournalState() == j.(index := index);
        return Some(TransactionFailedToOpenFile);
      }
      var dir := CreateNewFile(walDirectory, name);
      if fault == Fails(Opening, AtOpen) {
        journalFileIndex, walDirectory := index, dir;
        assert JournalState() == j.(index := index, dir := dir);
        return Some(TransactionFailedToOpenFile);
      }
      journalFileIndex, lastWalFile, channelClosed, walDirectory := index, Some(name), false, dir;
      assert JournalState() == SwitchTo(j, index);
      failure := None;
    }

    /**
     * The rotation: a WAL file over the size limit is closed and replaced by the file of the
     * next index; a creation or opening that fails leaves the index advanced and the closed
     * channel referenced.
     */
    method RotateIfFullWal(fault: IoFault) returns (failure: Option<ContextError>)
      requires Valid() && lastWalFile.Some?
      modifies this`journalFileIndex, this`lastWalFile, this`channelClosed, this`walDirectory
      ensures Valid()
      ensures var o := RotateIfFull(old(JournalState()), fault); failure == o.error && JournalState() == o.journal
    {
      if channelClosed || fault == Fails(Rotation, BeforeIndex) {
        return Some(TransactionFailedToOpenFile);
      }
      RotationSteps(JournalState(), fault);
      var k := Find(walDirectory, lastWalFile.value).value;
      if walDirectory[k].size > MAX_JOURNAL_SIZE {
        failure := ReplaceFullWal(fault);
      } else {
        failure := None;
      }
    }

    /** The rotation once the open file was found full: it is closed and the file of the next index created and opened. */
    method ReplaceFullWal(fault: IoFault) returns (failure: Option<ContextError>)
      requires Valid() && lastWalFile.Some? && !channelClosed && fault != Fails(Rotation, BeforeIndex)
      requires OpenSize(JournalState()) > MAX_JOURNAL_SIZE
      modifies this`journalFileIndex, this`lastWalFile, this`channelClosed, this`walDirectory
      ensures Valid()
      ensures var o := RotateIfFull(old(JournalState()), fault); failure == o.error && JournalState() == o.journal
    {
      ghost var j := JournalState();
      RotationSteps(j, fault);
      var index := journalFileIndex + 1;
      var name := WalName(index);
      if fault == Fails(Rotation, AtCreate) {
        journalFileIndex, channelClosed := index, true;
        assert JournalState() == j.(index := index, closed := true);
        return Some(TransactionFailedToOpenFile);
      }
      var dir := CreateNewFile(walDirectory, name);
      if fault == Fails(Rotation, AtOpen) {
        journalFileIndex, channelClosed, walDirectory := index, true, dir;
        assert JournalState() == j.(index := index, closed := true, dir := dir);
        return Some(TransactionFailedToOpenFile);
      }
      journalFileIndex, lastWalFile, walDirectory := index, Some(name), dir;
      assert JournalState() == SwitchTo(j, index);
      failure := None;
    }

    /** getDataFile: the builder of the descriptor's data file, created and memoised on first use. */
    method GetDataFile(d: EntityDescriptor) returns (b: MapBuilder)
      modifies this`dataFiles
      ensures (b, dataFiles) == DataFile(old(dataFiles), location, d)
    {
      var key := DataFileKey(d);
      if key !in dataFiles {
        dataFiles := dataFiles[key := MapBuilder(LocationText(location) + "/" + key)];
      }
      b := dataFiles[key];
    }

    /** getDescriptorForEntity, as `DescriptorFor` states it. */
    method GetDescriptorForEntity(entity: EntityClass, partitionId: Option<string>,
                                  stored: Option<SystemEntity>, indexValues: seq<int>)
      returns (d: EntityDescriptor)
      modifies this`descriptors, this`partitions, this`defaultSystemEntities
      ensures (d, DescriptorCache()) == DescriptorFor(old(DescriptorCache()), entity, partitionId, stored, indexValues)
    {
      var pid := PartitionText(partitionId);
      var key := entity.canonicalName + pid;
      if key in descriptors {
        return descriptors[key];
      }
      d := NewDescriptor(entity, partitionId);
      descriptors := descriptors[key := d];
      if SYSTEM_ENTITY !in descriptors || (entity.canonicalName == SYSTEM_ENTITY && SYSTEM_ATTRIBUTE !in descriptors) {
        descriptors := descriptors + SystemDescriptors();
        partitions := MaxIndex(indexValues);
      }
      var se := SystemEntityFor(defaultSystemEntities, entity.canonicalName, stored);
      se := AssignPartitionIndex(se, d.partitionValue);
      defaultSystemEntities := defaultSystemEntities[se.name := se];
    }

    /**
     * The partition index of a new descriptor's partition value: looked up
     * among the system entity's entries, else a new entry with the next
     * counter value.
     */
    method AssignPartitionIndex(se: SystemEntity, value: Option<string>) returns (se': SystemEntity)
      modifies this`partitions
      ensures (se', partitions) == AssignPartition(se, value, old(partitions))
    {
      se' := se;
      var found := false;
      if se.partition.Some? && value.Some? {
        var index;
        found, index := FindPartitionEntry(se.partition.value, value.value);
      }
      if !found && value.Some? {
        var entries := if se.partition.Some? then se.partition.value else [];
        partitions := partitions + 1;
        se' := SystemEntity(se.name, Some(entries + [PartitionEntry(value.value, partitions)]));
      }
    }

    /**
     * getPartitionDataFile: nothing without a location; the base data file
     * for partition 0; otherwise the data file of the descriptor for the
     * partition value of the first entry carrying the partition id, which
     * `entriesWithIndex` lists.
     */
    method GetPartitionDataFile(base: EntityDescriptor, partitionId: int, entriesWithIndex: seq<PartitionEntry>,
                                stored: Option<SystemEntity>, indexValues: seq<int>)
      returns (r: Result<Option<MapBuilder>, ContextError>)
      modifies this`dataFiles, this`descriptors, this`partitions, this`defaultSystemEntities
      ensures location.None? ==> r == Ok(None) && dataFiles == old(dataFiles) && DescriptorCache() == old(DescriptorCache())
      ensures location.Some? && partitionId == 0 ==>
        r.Ok? && r.value.Some? && (r.value.value, dataFiles) == DataFile(old(dataFiles), location, base) &&
        DescriptorCache() == old(DescriptorCache())
      ensures location.Some? && partitionId != 0 && |entriesWithIndex| == 0 ==>
        r == Err(PartitionEntryMissing) && dataFiles == old(dataFiles) && DescriptorCache() == old(DescriptorCache())
      ensures location.Some? && partitionId != 0 && |entriesWithIndex| > 0 ==>
        var (d, cache) := DescriptorFor(old(DescriptorCache()), base.entity, Some(entriesWithIndex[0].value), stored, indexValues);
        r.Ok? && r.value.Some? && (r.value.value, dataFiles) == DataFile(old(dataFiles), location, d) &&
        DescriptorCache() == cache
    {
      if location.None? {
        return Ok(None);
      }
      if partitionId == 0 {
        var b := GetDataFile(base);
        return Ok(Some(b));
      }
      if |entriesWithIndex| == 0 {
        return Err(PartitionEntryMissing);
      }
      var d := GetDescriptorForEntity(base.entity, Some(entriesWithIndex[0].value), stored, indexValues);
      var b := GetDataFile(d);
      r := Ok(Some(b));
    }

    /**
     * shutdown: sets the kill switch, closes the WAL channel while keeping it referenced and
     * empties the data-file, descriptor and controller caches; the journal index, the WAL file
     * and the partition counter stay.
     */
    method Shutdown()
      modifies this`killSwitch, this`dataFiles, this`descriptors, this`channelClosed
      modifies this`recordControllers, this`relationshipControllers, this`indexControllers
      ensures killSwitch
      ensures dataFiles == map[] && descriptors == map[]
      ensures recordControllers == {} && relationshipControllers == {} && indexControllers == {}
      ensures JournalState() == old(JournalState()).(closed := old(channelClosed) || old(lastWalFile).Some?)
      ensures partitions == old(partitions)
    {
      killSwitch := true;
      if lastWalFile.Some? {
        channelClosed := true;
      }
      dataFiles := map[];
      descriptors := map[];
      recordControllers := {};
      relationshipControllers := {};
      indexControllers := {};
    }
  }
}
