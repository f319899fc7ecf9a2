// The database over the bytes of its log and manifest files: a crash in the middle of an append leaves any part of it.
module DatabaseFiles {
  import opened Basics
  import opened InternalKeys
  import opened ReadSpec
  import opened Versions
  import opened VersionBuilders
  import opened Databases
  import opened DatabaseManifest
  import opened LogFormat
  import opened LogReaders

  // ---------------------------------------------------------------- one file

  /** How the records of a file are laid out; WriteBatch and VersionEdit each have their own encoding. */
  function Records<T>(encode: T -> seq<Byte>, xs: seq<T>): (r: seq<seq<Byte>>)
    ensures |r| == |xs|
  {
    seq(|xs|, i requires 0 <= i < |xs| => encode(xs[i]))
  }

  function FileOf<T>(crc: Checksum, encode: T -> seq<Byte>, xs: seq<T>): seq<Byte> {
    EncodedAll(crc, 0, Records(encode, xs))
  }

  /** What AddRecord writes behind the records `xs`. */
  function Addition<T>(crc: Checksum, encode: T -> seq<Byte>, xs: seq<T>, x: T): seq<Byte> {
    Encoded(crc, EndOfAll(0, Records(encode, xs)), encode(x), true)
  }

  /** Reading the file gives these records and no report. */
  ghost predicate Reads<T>(crc: Checksum, encode: T -> seq<Byte>, file: seq<Byte>, xs: seq<T>) {
    ReadAll(crc, Opened(file), []) == (Records(encode, xs), [])
  }

  lemma FileGrows<T>(crc: Checksum, encode: T -> seq<Byte>, xs: seq<T>, x: T)
    ensures FileOf(crc, encode, xs + [x]) == FileOf(crc, encode, xs) + Addition(crc, encode, xs, x)
  {
    assert Records(encode, xs + [x]) == Records(encode, xs) + [encode(x)];
    EncodedSnoc(crc, 0, Records(encode, xs), encode(x));
  }

  lemma FileReads<T>(crc: Checksum, encode: T -> seq<Byte>, xs: seq<T>)
    ensures Reads(crc, encode, FileOf(crc, encode, xs), xs)
  {
    LogRoundTrip(crc, Records(encode, xs));
  }

  lemma {:induction false} LastTorn(crc: Checksum, off: Offset, records: seq<seq<Byte>>, r: seq<Byte>, n: nat)
    requires n < |Encoded(crc, EndOfAll(off, records), r, true)|
    ensures WholeRecords(crc, off, records + [r], |EncodedAll(crc, off, records)| + n) == |records|
    decreases |records|
  {
    hide Encoded, EndOffset;
    if records != [] {
      assert (records + [r])[1..] == records[1..] + [r];
      LastTorn(crc, EndOffset(off, |records[0]|), records[1..], r, n);
    }
  }

  /** After any part of an append but the whole, the file reads as if nothing had been appended. */
  lemma TornReads<T>(crc: Checksum, encode: T -> seq<Byte>, xs: seq<T>, x: T, n: nat)
    requires n < |Addition(crc, encode, xs, x)|
    ensures Reads(crc, encode, FileOf(crc, encode, xs) + Addition(crc, encode, xs, x)[..n], xs)
  {
    hide ReadAll, EncodedAll, Encoded, WholeRecords;
    var records, r := Records(encode, xs), encode(x);
    var before, more := FileOf(crc, encode, xs), Addition(crc, encode, xs, x);
    EncodedSnoc(crc, 0, records, r);
    assert (before + more)[..|before| + n] == before + more[..n];
    PrefixReadsBack(crc, records + [r], |before| + n);
    LastTorn(crc, 0, records, r, n);
    assert (records + [r])[..|records|] == records;
  }

  /** What was recorded can be told from the bytes. */
  lemma ReadsOnce<T>(crc: Checksum, encode: T -> seq<Byte>, file: seq<Byte>, xs: seq<T>, ys: seq<T>)
    requires Reads(crc, encode, file, xs) && Reads(crc, encode, file, ys)
    requires forall x, y :: encode(x) == encode(y) ==> x == y
    ensures xs == ys
  {
    assert |Records(encode, xs)| == |Records(encode, ys)|;
    forall i | 0 <= i < |xs| ensures xs[i] == ys[i] { assert Records(encode, xs)[i] == Records(encode, ys)[i]; }
  }

  // ---------------------------------------------------------------- the files of a database

  datatype Codec = Codec(crc: Checksum, batch: seq<Entry> -> seq<Byte>, edit: Edit -> seq<Byte>)

  datatype Files = Files(logs: map<nat, seq<Byte>>, manifests: map<nat, seq<Byte>>)

  ghost predicate AllRead<T>(crc: Checksum, encode: T -> seq<Byte>, files: map<nat, seq<Byte>>,
                             contents: map<nat, seq<T>>) {
    files.Keys == contents.Keys && forall n :: n in files ==> Reads(crc, encode, files[n], contents[n])
  }

  ghost predicate Whole<T>(crc: Checksum, encode: T -> seq<Byte>, files: map<nat, seq<Byte>>,
                           contents: map<nat, seq<T>>, n: nat) {
    n in files && n in contents && files[n] == FileOf(crc, encode, contents[n])
  }

  /** Every file reads as the disk says, and the two that are being appended to end in a whole record. */
  ghost predicate FilesOk(c: Codec, f: Files, db: Db) {
    && AllRead(c.crc, c.batch, f.logs, db.disk.logs) && AllRead(c.crc, c.edit, f.manifests, db.disk.manifests)
    && (db.mode.Up? ==> && Whole(c.crc, c.batch, f.logs, db.disk.logs, db.mode.memory.logfile)
                        && Whole(c.crc, c.edit, f.manifests, db.disk.manifests, db.disk.current))
  }

  function Grown(files: map<nat, seq<Byte>>, n: nat, more: seq<Byte>): map<nat, seq<Byte>> {
    if n in files then files[n := files[n] + more] else files
  }

  /** What the step from `db` to `db'` appends to the log. */
  function LogAddition(c: Codec, db: Db, r: seq<Entry>): seq<Byte> {
    if db.mode.Up? && db.mode.memory.logfile in db.disk.logs
    then Addition(c.crc, c.batch, db.disk.logs[db.mode.memory.logfile], r)
    else []
  }

  /** What it appends to the manifest: the last edit of `db'`. */
  function ManifestAddition(c: Codec, db: Db, db': Db): seq<Byte> {
    if db.disk.current in db.disk.manifests && db.disk.current in db'.disk.manifests
      && db'.disk.manifests[db.disk.current] != []
    then var edits := db'.disk.manifests[db.disk.current];
      Addition(c.crc, c.edit, db.disk.manifests[db.disk.current], edits[|edits| - 1])
    else []
  }

  function Only(files: map<nat, seq<Byte>>, keep: set<nat>): map<nat, seq<Byte>> {
    map n | n in files && n in keep :: files[n]
  }

  predicate AppendsEdit(l: Label) {
    l.Flush? || l.Move? || l.Compact?
  }

  /** How the bytes follow a step of the database. */
  ghost predicate FilesFollow(c: Codec, f: Files, db: Db, l: Label, db': Db, f': Files) {
    match l
    case Write(r) => db.mode.Up? && f' == f.(logs := Grown(f.logs, db.mode.memory.logfile, LogAddition(c, db, r)))
    case Rotate => db.mode.Up? && f' == f.(logs := f.logs[db.mode.memory.nextFile := []])
    case Clean => f' == Files(Only(f.logs, db'.disk.logs.Keys), Only(f.manifests, db'.disk.manifests.Keys))
    case OpenWrite(w) => db.mode.Opening? && OpenWriteFollows(c, f, db.mode.open, w, f')
    case OpenDone(_) =>
      && f' == f && db.mode.Opening? && Whole(c.crc, c.batch, f.logs, db.disk.logs, db.mode.open.newLog)
      && Whole(c.crc, c.edit, f.manifests, db.disk.manifests, db.mode.open.manifest)
    case _ => if AppendsEdit(l)
      then f' == f.(manifests := Grown(f.manifests, db.disk.current, ManifestAddition(c, db, db'))) else f' == f
  }

  /** A new manifest may be cut short anywhere; it then reads as fewer edits. */
  ghost predicate OpenWriteFollows(c: Codec, f: Files, o: OpenState, w: OpenWriteKind, f': Files) {
    match w
    case TableFile(_) => f' == f
    case NewLogFile => f' == f.(logs := f.logs[o.newLog := []])
    case ManifestFile(edits) =>
      o.manifest in f'.manifests && Reads(c.crc, c.edit, f'.manifests[o.manifest], edits)
      && f' == f.(manifests := f.manifests[o.manifest := f'.manifests[o.manifest]])
  }

  /** A step of the database carried out in full, or a crash after `kept` bytes of what it would have appended. */
  datatype FileLabel = Done(step: Label) | Torn(step: Label, target: Db, kept: nat)

  ghost predicate TornAppend(c: Codec, f: Files, db: Db, l: Label, mid: Db, kept: nat, db': Db, f': Files) {
    && Step(db, l, mid) && CrashStep(db, db')
    && match l
       case Write(r) =>
         && db.mode.Up? && kept < |LogAddition(c, db, r)|
         && f' == f.(logs := Grown(f.logs, db.mode.memory.logfile, LogAddition(c, db, r)[..kept]))
       case _ =>
         && AppendsEdit(l) && kept < |ManifestAddition(c, db, mid)|
         && f' == f.(manifests := Grown(f.manifests, db.disk.current, ManifestAddition(c, db, mid)[..kept]))
  }

  ghost predicate FileStep(c: Codec, f: Files, db: Db, fl: FileLabel, db': Db, f': Files) {
    match fl
    case Done(l) => Step(db, l, db') && FilesFollow(c, f, db, l, db', f')
    case Torn(l, mid, kept) => TornAppend(c, f, db, l, mid, kept, db', f')
  }

  ghost predicate FileInit(c: Codec, f: Files, db: Db) {
    && Init(db) && f.logs == map[] && f.manifests.Keys == {1}
    && Whole(c.crc, c.edit, f.manifests, db.disk.manifests, 1)
  }

  // ---------------------------------------------------------------- every file keeps reading as it should

  lemma GrownReads<T>(crc: Checksum, encode: T -> seq<Byte>, files: map<nat, seq<Byte>>, contents: map<nat, seq<T>>,
                      n: nat, x: T)
    requires AllRead(crc, encode, files, contents) && Whole(crc, encode, files, contents, n)
    ensures var files', contents' := Grown(files, n, Addition(crc, encode, contents[n], x)),
            contents[n := contents[n] + [x]];
            AllRead(crc, encode, files', contents') && Whole(crc, encode, files', contents', n)
  {
    FileGrows(crc, encode, contents[n], x);
    FileReads(crc, encode, contents[n] + [x]);
  }

  lemma TornKeepsReading<T>(crc: Checksum, encode: T -> seq<Byte>, files: map<nat, seq<Byte>>,
                            contents: map<nat, seq<T>>, n: nat, x: T, kept: nat)
    requires AllRead(crc, encode, files, contents) && Whole(crc, encode, files, contents, n)
    requires kept < |Addition(crc, encode, contents[n], x)|
    ensures AllRead(crc, encode, Grown(files, n, Addition(crc, encode, contents[n], x)[..kept]), contents)
  {
    TornReads(crc, encode, contents[n], x, kept);
  }

  lemma CreatedReads<T>(crc: Checksum, encode: T -> seq<Byte>, files: map<nat, seq<Byte>>, contents: map<nat, seq<T>>,
                        n: nat)
    requires AllRead(crc, encode, files, contents)
    ensures AllRead(crc, encode, files[n := []], contents[n := []])
            && Whole(crc, encode, files[n := []], contents[n := []], n)
  {
    FileReads(crc, encode, []);
    assert FileOf(crc, encode, []) == [];
  }

  lemma OthersStayWhole<T>(crc: Checksum, encode: T -> seq<Byte>, files: map<nat, seq<Byte>>,
                           contents: map<nat, seq<T>>, keep: set<nat>, contents': map<nat, seq<T>>, n: nat)
    requires AllRead(crc, encode, files, contents) && keep == contents'.Keys
    requires forall k :: k in contents' ==> k in contents && contents'[k] == contents[k]
    ensures AllRead(crc, encode, Only(files, keep), contents')
    ensures n in keep && Whole(crc, encode, files, contents, n) ==> Whole(crc, encode, Only(files, keep), contents', n)
  {
  }

  lemma AppendedEdit(db: Db, l: Label, db': Db)
    requires Step(db, l, db') && AppendsEdit(l)
    ensures db.mode.Up? && db'.mode.Up? && db.mode.memory.logfile == db'.mode.memory.logfile
    ensures db.disk.current in db.disk.manifests && db.disk.current in db'.disk.manifests
            && db'.disk.current == db.disk.current
    ensures exists e :: db'.disk == db.disk.(manifests := db.disk.manifests[db.disk.current := Edits(db.disk) + [e]])
  {
  }

  lemma EditKeepsFiles(c: Codec, f: Files, db: Db, l: Label, db': Db, f': Files)
    requires FilesOk(c, f, db) && Step(db, l, db') && AppendsEdit(l) && FilesFollow(c, f, db, l, db', f')
    ensures FilesOk(c, f', db')
  {
    hide Step, Reads, FileOf;
    AppendedEdit(db, l, db');
    var e :| db'.disk == db.disk.(manifests := db.disk.manifests[db.disk.current := Edits(db.disk) + [e]]);
    GrownReads(c.crc, c.edit, f.manifests, db.disk.manifests, db.disk.current, e);
  }

  lemma WriteKeepsFiles(c: Codec, f: Files, db: Db, l: Label, db': Db, f': Files)
    requires FilesOk(c, f, db) && Step(db, l, db') && l.Write? && FilesFollow(c, f, db, l, db', f')
    ensures FilesOk(c, f', db')
  {
    hide Reads, FileOf;
    GrownReads(c.crc, c.batch, f.logs, db.disk.logs, db.mode.memory.logfile, l.record);
  }

  lemma CreateKeepsFiles(c: Codec, f: Files, db: Db, l: Label, db': Db, f': Files)
    requires FilesOk(c, f, db) && Step(db, l, db') && (l.Rotate? || l.OpenWrite?) && FilesFollow(c, f, db, l, db', f')
    ensures FilesOk(c, f', db')
  {
    hide Reads, FileOf;
    if l.Rotate? {
      CreatedReads(c.crc, c.batch, f.logs, db.disk.logs, db.mode.memory.nextFile);
    } else if l.kind.NewLogFile? {
      CreatedReads(c.crc, c.batch, f.logs, db.disk.logs, db.mode.open.newLog);
    }
  }

  lemma CleanKeepsFiles(c: Codec, f: Files, db: Db, db': Db, f': Files)
    requires FilesOk(c, f, db) && CleanStep(db, db') && Inv(db) && FilesFollow(c, f, db, Clean, db', f')
    ensures FilesOk(c, f', db')
  {
    hide Reads, FileOf, DiskOk, ValidVersion, TablesPresent, PendingOk, AllPairs, Unique, Entries, ReadsAgree, LogRange;
    OthersStayWhole(c.crc, c.batch, f.logs, db.disk.logs, db'.disk.logs.Keys, db'.disk.logs, db.mode.memory.logfile);
    OthersStayWhole(c.crc, c.edit, f.manifests, db.disk.manifests, db'.disk.manifests.Keys, db'.disk.manifests,
                    db.disk.current);
  }

  lemma DoneKeepsFiles(c: Codec, f: Files, db: Db, l: Label, db': Db, f': Files)
    requires FilesOk(c, f, db) && Inv(db) && Step(db, l, db') && FilesFollow(c, f, db, l, db', f')
    ensures FilesOk(c, f', db')
  {
    hide Reads, FileOf, Inv;
    if l.Write? {
      WriteKeepsFiles(c, f, db, l, db', f');
    } else if AppendsEdit(l) {
      EditKeepsFiles(c, f, db, l, db', f');
    } else if l.Rotate? || l.OpenWrite? {
      CreateKeepsFiles(c, f, db, l, db', f');
    } else if l.Clean? {
      CleanKeepsFiles(c, f, db, db', f');
    }
  }

  /** A torn append leaves files that read as if it had not begun. */
  lemma TornKeepsFiles(c: Codec, f: Files, db: Db, l: Label, mid: Db, kept: nat, db': Db, f': Files)
    requires FilesOk(c, f, db) && TornAppend(c, f, db, l, mid, kept, db', f')
    ensures FilesOk(c, f', db')
  {
    hide Reads, FileOf;
    if l.Write? {
      TornKeepsReading(c.crc, c.batch, f.logs, db.disk.logs, db.mode.memory.logfile, l.record, kept);
    } else {
      AppendedEdit(db, l, mid);
      var e :| mid.disk == db.disk.(manifests := db.disk.manifests[db.disk.current := Edits(db.disk) + [e]]);
      TornKeepsReading(c.crc, c.edit, f.manifests, db.disk.manifests, db.disk.current, e, kept);
    }
  }

  // ---------------------------------------------------------------- runs

  lemma FileStepKeeps(c: Codec, f: Files, db: Db, fl: FileLabel, db': Db, f': Files)
    requires Reachable(db) && FilesOk(c, f, db) && FileStep(c, f, db, fl, db', f')
    ensures Reachable(db') && FilesOk(c, f', db')
  {
    hide Reachable, FilesOk, Step, FilesFollow;
    match fl
    case Done(l) =>
      ReachStep(db, l, db');
      ReachableInv(db);
      DoneKeepsFiles(c, f, db, l, db', f');
    case Torn(l, mid, kept) =>
      CrashIsStep(db, db');
      ReachStep(db, Crash, db');
      TornKeepsFiles(c, f, db, l, mid, kept, db', f');
  }

  lemma CrashIsStep(db: Db, db': Db)
    requires CrashStep(db, db')
    ensures Step(db, Crash, db')
  {
  }

  ghost predicate FileRun(c: Codec, states: seq<Db>, files: seq<Files>, labels: seq<FileLabel>) {
    && |states| == |files| == |labels| + 1 && FileInit(c, files[0], states[0])
    && forall i :: 0 <= i < |labels| ==> FileStep(c, files[i], states[i], labels[i], states[i + 1], files[i + 1])
  }

  /** However appends are torn by crashes, the database stays in a state it could reach without torn appends, and every
      log and manifest reads, without a report, as that state says. */
  lemma {:induction false} TornAppendsAreHarmless(c: Codec, states: seq<Db>, files: seq<Files>, labels: seq<FileLabel>,
                                                  i: nat)
    requires FileRun(c, states, files, labels) && i < |states|
    ensures Reachable(states[i]) && FilesOk(c, files[i], states[i])
  {
    hide Reachable, FilesOk, FileStep, Init;
    if i == 0 {
      ReachInit(states[0]);
      InitFiles(c, files[0], states[0]);
    } else {
      TornAppendsAreHarmless(c, states, files, labels, i - 1);
      FileStepKeeps(c, files[i - 1], states[i - 1], labels[i - 1], states[i], files[i]);
    }
  }

  lemma InitFiles(c: Codec, f: Files, db: Db)
    requires FileInit(c, f, db)
    ensures FilesOk(c, f, db)
  {
    FileReads(c.crc, c.edit, db.disk.manifests[1]);
  }

  lemma ReadOnce<T>(crc: Checksum, encode: T -> seq<Byte>, files: map<nat, seq<Byte>>, a: map<nat, seq<T>>,
                    b: map<nat, seq<T>>)
    requires AllRead(crc, encode, files, a) && AllRead(crc, encode, files, b)
    requires forall x, y :: encode(x) == encode(y) ==> x == y
    ensures a == b
  {
    forall n | n in a ensures n in b && a[n] == b[n] {
      assert n in files.Keys && n in b.Keys;
      ReadsOnce(crc, encode, files[n], a[n], b[n]);
    }
  }

  /** Whatever a crash leaves: reading the logs and manifests gives a disk from which nothing committed is lost. */
  lemma NothingIsTorn(c: Codec, states: seq<Db>, files: seq<Files>, labels: seq<FileLabel>, i: nat, d: Disk)
    requires FileRun(c, states, files, labels) && i < |states|
    requires (forall r, q :: c.batch(r) == c.batch(q) ==> r == q) && forall e, g :: c.edit(e) == c.edit(g) ==> e == g
    requires AllRead(c.crc, c.batch, files[i].logs, d.logs) && AllRead(c.crc, c.edit, files[i].manifests, d.manifests)
    requires d.current == states[i].disk.current && d.tables == states[i].disk.tables
    ensures d == states[i].disk && d.current in d.manifests
    ensures states[i].history == Entries(states[i].recorded) + Logged(d) + states[i].dropped
    ensures TablesPresent(states[i].recorded, d.tables) && Lists(states[i].recorded, Replay(NoFiles(), Edits(d)))
  {
    hide FileStep, FileInit, Reachable, AllRead, Replay, Lists, Entries, LogEntries;
    var f, db := files[i], states[i];
    TornAppendsAreHarmless(c, states, files, labels, i);
    ReachableInv(db);
    ReadOnce(c.crc, c.batch, f.logs, d.logs, db.disk.logs);
    ReadOnce(c.crc, c.edit, f.manifests, d.manifests, db.disk.manifests);
  }
}
