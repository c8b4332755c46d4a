/** The discrepancy ledger: what a publication plans, writes, and leaves behind when it is stopped. */
module Ledger {
  import opened Wrappers
  import opened Sequences
  import opened JsonText

  const MAX_LEDGER_FILE_BYTES: nat := 64 * 1024 * 1024
  const MAX_INDEXED_RECORDS: nat := 65_536

  /** Where two observations differ, and the two values there. */
  datatype Difference = Difference(path: string, oracle: Json, candidate: Json)

  datatype Record = Record(
    schemaVersion: int,
    id: string,
    profile: string,
    fixture: string,
    comparator: string,
    differences: seq<Difference>,
    severity: string,
    status: string,
    remarks: map<string, Json>)

  /** What makes two records the same discrepancy. */
  datatype Identity = Identity(schemaVersion: int, id: string, profile: string, fixture: string, comparator: string, differences: seq<Difference>)

  function IdentityOf(r: Record): Identity {
    Identity(r.schemaVersion, r.id, r.profile, r.fixture, r.comparator, r.differences)
  }

  /** One line of the index. */
  datatype IndexEntry = IndexEntry(id: string, fixture: string, comparator: string, severity: string, status: string)

  function Projection(r: Record): IndexEntry {
    IndexEntry(r.id, r.fixture, r.comparator, r.severity, r.status)
  }

  datatype FileEntry = Regular(text: string) | Link

  datatype IndexFile = NoIndex | Lines(lines: seq<string>) | IndexLink

  datatype Place = Absent | Directory | SomethingElse

  datatype State = State(place: Place, files: map<string, FileEntry>, index: IndexFile)

  /** Validation, the JSON forms, and the measures. */
  datatype Codec = Codec(
    valid: Record -> bool,
    validId: string -> bool,
    encode: Record -> string,
    decode: string -> Option<Record>,
    encodeLine: IndexEntry -> string,
    decodeLine: string -> Option<IndexEntry>,
    blank: string -> bool,
    size: string -> nat)
  {
    ghost predicate Faithful() {
      && (forall r :: valid(r) ==> decode(encode(r)) == Some(r) && validId(r.id))
      && (forall r :: valid(r) ==> decodeLine(encodeLine(Projection(r))) == Some(Projection(r)) && !blank(encodeLine(Projection(r))))
    }
  }

  // ---- what is on disk

  /** The file of an id reads as a valid record. */
  predicate Readable(c: Codec, files: map<string, FileEntry>, id: string) {
    && id in files && files[id].Regular?
    && c.decode(files[id].text).Some? && c.valid(c.decode(files[id].text).value)
  }

  /** Its file is small enough to be looked at again. */
  predicate Small(c: Codec, files: map<string, FileEntry>, id: string) {
    id in files && files[id].Regular? && c.size(files[id].text) <= MAX_LEDGER_FILE_BYTES
  }

  function Stored(c: Codec, files: map<string, FileEntry>, id: string): Record
    requires Readable(c, files, id)
  {
    c.decode(files[id].text).value
  }

  /** A line of the index names a record on disk and says what the record says. */
  predicate Agrees(c: Codec, files: map<string, FileEntry>, line: string) {
    var e := c.decodeLine(line);
    && e.Some? && c.validId(e.value.id) && Readable(c, files, e.value.id)
    && Projection(Stored(c, files, e.value.id)) == e.value
  }

  function LinesOf(index: IndexFile): seq<string> {
    if index.Lines? then index.lines else []
  }

  /** The lines that are not blank. */
  function Entries(c: Codec, lines: seq<string>): seq<string> {
    if lines == [] then []
    else Entries(c, lines[..|lines| - 1]) + if c.blank(lines[|lines| - 1]) then [] else [lines[|lines| - 1]]
  }

  function Ids(c: Codec, entries: seq<string>): seq<string>
    requires forall l :: l in entries ==> c.decodeLine(l).Some?
  {
    seq(|entries|, i requires 0 <= i < |entries| => c.decodeLine(entries[i]).value.id)
  }

  function Bytes(c: Codec, lines: seq<string>): nat {
    if lines == [] then 0 else Bytes(c, lines[..|lines| - 1]) + c.size(lines[|lines| - 1]) + 1
  }

  /** Every entry agrees with its record, and no record is listed twice. */
  ghost predicate Truthful(c: Codec, files: map<string, FileEntry>, lines: seq<string>) {
    var entries := Entries(c, lines);
    && (forall l :: l in entries ==> Agrees(c, files, l))
    && Distinct(Ids(c, entries))
  }

  /** The index is short enough, and lists few enough records, all small enough, to be read back. */
  ghost predicate WithinLimits(c: Codec, files: map<string, FileEntry>, lines: seq<string>) {
    && Bytes(c, lines) <= MAX_LEDGER_FILE_BYTES && |Entries(c, lines)| <= MAX_INDEXED_RECORDS
    && forall l :: l in Entries(c, lines) && c.decodeLine(l).Some? ==> Small(c, files, c.decodeLine(l).value.id)
  }

  ghost predicate Loadable(c: Codec, s: State) {
    && !s.index.IndexLink?
    && Truthful(c, s.files, LinesOf(s.index)) && WithinLimits(c, s.files, LinesOf(s.index))
  }

  ghost function IndexedIds(c: Codec, s: State): set<string>
    requires Truthful(c, s.files, LinesOf(s.index))
  {
    set id | id in Ids(c, Entries(c, LinesOf(s.index)))
  }

  // ---- the plan

  ghost predicate GoodBatch(c: Codec, batch: seq<Record>) {
    (forall r :: r in batch ==> c.valid(r)) && forall i, j :: 0 <= i < j < |batch| ==> batch[i].id != batch[j].id
  }

  predicate SameRecord(existing: Record, incoming: Record) {
    IdentityOf(existing) == IdentityOf(incoming) && existing.severity == incoming.severity && existing.status == incoming.status
  }

  /** A record already on disk is the incoming one, up to remarks. */
  predicate Compatible(c: Codec, files: map<string, FileEntry>, r: Record) {
    r.id in files ==> Small(c, files, r.id) && Readable(c, files, r.id) && SameRecord(Stored(c, files, r.id), r)
  }

  ghost predicate Admitted(c: Codec, s: State, batch: seq<Record>) {
    && GoodBatch(c, batch) && !s.place.SomethingElse? && Loadable(c, s)
    && forall r :: r in batch ==> Compatible(c, s.files, r)
  }

  /** The records of a batch outside a set of ids, in order. */
  function Outside(batch: seq<Record>, ids: set<string>): (rs: seq<Record>)
    ensures forall r :: r in rs <==> r in batch && r.id !in ids
  {
    if batch == [] then []
    else
      var r := batch[|batch| - 1];
      var rest := Outside(batch[..|batch| - 1], ids);
      assert batch == batch[..|batch| - 1] + [r];
      if r.id in ids then rest else rest + [r]
  }

  function IdsOf(rs: seq<Record>): set<string> {
    set r | r in rs :: r.id
  }

  datatype Write = RecordFile(record: Record) | IndexLine(record: Record)

  function FileWrites(rs: seq<Record>): seq<Write> {
    seq(|rs|, i requires 0 <= i < |rs| => RecordFile(rs[i]))
  }

  function LineWrites(rs: seq<Record>): seq<Write> {
    seq(|rs|, i requires 0 <= i < |rs| => IndexLine(rs[i]))
  }

  /** First every missing record file, then every missing line of the index. */
  ghost function Plan(c: Codec, s: State, batch: seq<Record>): seq<Write>
    requires Truthful(c, s.files, LinesOf(s.index))
  {
    var missing, additions := Outside(batch, s.files.Keys), Outside(batch, IndexedIds(c, s));
    FileWrites(missing) + LineWrites(additions)
  }

  function Apply(c: Codec, s: State, w: Write): State {
    match w
    case RecordFile(r) => s.(files := s.files[r.id := Regular(c.encode(r))])
    case IndexLine(r) => s.(index := Lines(LinesOf(s.index) + [c.encodeLine(Projection(r))]))
  }

  function ApplyAll(c: Codec, s: State, ws: seq<Write>): State {
    if ws == [] then s else Apply(c, ApplyAll(c, s, ws[..|ws| - 1]), ws[|ws| - 1])
  }

  datatype Outcome = Done | Stopped | Rejected

  /** A directory is made before the ledger is read. */
  function Made(s: State): State {
    s.(place := Directory)
  }

  /** A run that is stopped after `n` writes, if it gets that far. */
  ghost function Run(c: Codec, s: State, batch: seq<Record>, n: nat): (State, Outcome) {
    if !GoodBatch(c, batch) || s.place.SomethingElse? then (s, Rejected)
    else if !Admitted(c, s, batch) then (Made(s), Rejected)
    else
      var plan := Plan(c, Made(s), batch);
      if n < |plan| then (ApplyAll(c, Made(s), plan[..n]), Stopped) else (ApplyAll(c, Made(s), plan), Done)
  }
}
