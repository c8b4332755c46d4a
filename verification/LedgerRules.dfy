/** What admits a batch, field by field, and what a whole publication leaves behind. */
module LedgerRules {
  import opened Wrappers
  import opened Sequences
  import opened Ledger
  import opened LedgerRecovery
  import opened JsonText

  /** The same in every field but the remarks. */
  ghost predicate SameButRemarks(a: Record, b: Record) {
    && a.schemaVersion == b.schemaVersion && a.id == b.id && a.profile == b.profile && a.fixture == b.fixture
    && a.comparator == b.comparator && a.differences == b.differences && a.severity == b.severity && a.status == b.status
  }

  /** A file that is read as a valid record. */
  ghost predicate Holds(c: Codec, file: FileEntry, r: Record) {
    file.Regular? && c.size(file.text) <= 64 * 1024 * 1024 && c.decode(file.text) == Some(r) && c.valid(r)
  }

  /** A line of the index that tells the truth about the file of some record. */
  ghost predicate TellsTruth(c: Codec, files: map<string, FileEntry>, line: string) {
    exists r :: Tells(c, files, line, r)
  }

  ghost predicate Tells(c: Codec, files: map<string, FileEntry>, line: string, r: Record) {
    && c.decodeLine(line) == Some(IndexEntry(r.id, r.fixture, r.comparator, r.severity, r.status))
    && c.validId(r.id) && r.id in files && Holds(c, files[r.id], r)
  }

  /** An index is as long as its lines, each with its line ending, and its entries are the lines that are not blank, in order. */
  lemma {:induction false} LinesAddUp(c: Codec, a: seq<string>, b: seq<string>)
    ensures Bytes(c, a + b) == Bytes(c, a) + Bytes(c, b) && Entries(c, a + b) == Entries(c, a) + Entries(c, b)
  {
    if b == [] {
      assert a + b == a;
    } else {
      var init := b[..|b| - 1];
      assert (a + b)[..|a + b| - 1] == a + init;
      LinesAddUp(c, a, init);
    }
  }

  lemma OneLine(c: Codec, l: string)
    ensures Bytes(c, [l]) == c.size(l) + 1 && Entries(c, [l]) == if c.blank(l) then [] else [l]
  {
    assert [l][..0] == [];
  }

  /** The ids that two entries of the index are about differ. */
  ghost predicate OfTwoRecords(c: Codec, a: string, b: string) {
    c.decodeLine(a).Some? && c.decodeLine(b).Some? && c.decodeLine(a).value.id != c.decodeLine(b).value.id
  }

  /** The index can be read back: it is no link, it and every record it tells of keep to the limits, and it tells the truth about each once. */
  lemma LoadableIff(c: Codec, s: State)
    ensures Loadable(c, s) <==> (
      var entries := Entries(c, LinesOf(s.index));
      && !s.index.IndexLink? && Bytes(c, LinesOf(s.index)) <= 64 * 1024 * 1024 && |entries| <= 65_536
      && (forall i :: 0 <= i < |entries| ==> TellsTruth(c, s.files, entries[i]))
      && (forall i, j :: 0 <= i < j < |entries| ==> OfTwoRecords(c, entries[i], entries[j])))
  {
    hide TellsTruth, Entries, Bytes, OfTwoRecords;
    var entries := Entries(c, LinesOf(s.index));
    if Loadable(c, s) { LoadableTells(c, s, entries); }
    if
      && !s.index.IndexLink? && Bytes(c, LinesOf(s.index)) <= 64 * 1024 * 1024 && |entries| <= 65_536
      && (forall i :: 0 <= i < |entries| ==> TellsTruth(c, s.files, entries[i]))
      && (forall i, j :: 0 <= i < j < |entries| ==> OfTwoRecords(c, entries[i], entries[j]))
    {
      TruthIsLoadable(c, s, entries);
    }
  }

  lemma LoadableTells(c: Codec, s: State, entries: seq<string>)
    requires Loadable(c, s) && entries == Entries(c, LinesOf(s.index))
    ensures forall i :: 0 <= i < |entries| ==> TellsTruth(c, s.files, entries[i])
    ensures forall i, j :: 0 <= i < j < |entries| ==> OfTwoRecords(c, entries[i], entries[j])
  {
    hide TellsTruth, Entries, Bytes;
    forall i | 0 <= i < |entries| ensures TellsTruth(c, s.files, entries[i]) {
      assert entries[i] in entries;
      AgreesIff(c, s.files, entries[i]);
    }
    forall i, j | 0 <= i < j < |entries| ensures OfTwoRecords(c, entries[i], entries[j]) {
      assert entries[i] in entries && entries[j] in entries;
      assert Ids(c, entries)[i] != Ids(c, entries)[j];
    }
  }

  lemma TruthIsLoadable(c: Codec, s: State, entries: seq<string>)
    requires entries == Entries(c, LinesOf(s.index))
    requires !s.index.IndexLink? && Bytes(c, LinesOf(s.index)) <= 64 * 1024 * 1024 && |entries| <= 65_536
    requires forall i :: 0 <= i < |entries| ==> TellsTruth(c, s.files, entries[i])
    requires forall i, j :: 0 <= i < j < |entries| ==> OfTwoRecords(c, entries[i], entries[j])
    ensures Loadable(c, s)
  {
    hide TellsTruth, Entries, Bytes;
    forall l | l in entries
      ensures c.decodeLine(l).Some? && Agrees(c, s.files, l) && Small(c, s.files, c.decodeLine(l).value.id)
    {
      var i :| 0 <= i < |entries| && entries[i] == l;
      AgreesIff(c, s.files, entries[i]);
    }
    forall i, j | 0 <= i < j < |entries| ensures Ids(c, entries)[i] != Ids(c, entries)[j] {
      assert OfTwoRecords(c, entries[i], entries[j]);
    }
  }

  lemma AgreesIff(c: Codec, files: map<string, FileEntry>, l: string)
    ensures (c.decodeLine(l).Some? && Agrees(c, files, l) && Small(c, files, c.decodeLine(l).value.id)) <==> TellsTruth(c, files, l)
  {
    if c.decodeLine(l).Some? && Agrees(c, files, l) && Small(c, files, c.decodeLine(l).value.id) {
      assert Tells(c, files, l, Stored(c, files, c.decodeLine(l).value.id));
    }
  }

  /** What a batch needs to be admitted. */
  lemma AdmittedIff(c: Codec, s: State, batch: seq<Record>)
    ensures Admitted(c, s, batch) <==>
      && (forall r :: r in batch ==> c.valid(r)) && (forall i, j :: 0 <= i < j < |batch| ==> batch[i].id != batch[j].id)
      && !s.place.SomethingElse? && Loadable(c, s)
      && forall r :: r in batch && r.id in s.files ==> exists there :: Holds(c, s.files[r.id], there) && SameButRemarks(there, r)
  {
    hide Loadable;
    forall r | r in batch ensures Compatible(c, s.files, r) <==> (r.id in s.files ==> exists there :: Holds(c, s.files[r.id], there) && SameButRemarks(there, r)) {
      CompatibleIff(c, s.files, r);
    }
    hide Compatible, Holds;
  }

  lemma CompatibleIff(c: Codec, files: map<string, FileEntry>, r: Record)
    ensures Compatible(c, files, r) <==> (r.id in files ==> exists there :: Holds(c, files[r.id], there) && SameButRemarks(there, r))
  {
    if r.id in files && Compatible(c, files, r) { assert Holds(c, files[r.id], Stored(c, files, r.id)); }
  }

  /** A batch that is not admitted writes nothing. */
  lemma NotAdmittedWritesNothing(c: Codec, s: State, batch: seq<Record>, n: nat)
    requires !Admitted(c, s, batch)
    ensures var (after, outcome) := Run(c, s, batch, n); outcome == Rejected && after.files == s.files && after.index == s.index
  {
    hide Loadable, Compatible, Plan;
  }

  /** A record that says anything else than the one on disk, its remarks aside, is a collision: the batch is rejected. */
  lemma CollisionIsRejected(c: Codec, s: State, batch: seq<Record>, r: Record, there: Record, n: nat)
    requires r in batch && r.id in s.files && Holds(c, s.files[r.id], there) && !SameButRemarks(there, r)
    ensures var (after, outcome) := Run(c, s, batch, n); outcome == Rejected && after.files == s.files && after.index == s.index
  {
    AdmittedIff(c, s, batch);
    hide Admitted, Run, SameButRemarks;
    NotAdmittedWritesNothing(c, s, batch, n);
  }

  /** One whose remarks alone differ is no reason to reject it. */
  lemma RemarksMayDiffer(c: Codec, s: State, batch: seq<Record>, i: nat, remarks: map<string, Json>)
    requires Admitted(c, s, batch) && i < |batch| && c.valid(batch[i].(remarks := remarks))
    ensures Admitted(c, s, batch[i := batch[i].(remarks := remarks)])
  {
    var other := batch[i := batch[i].(remarks := remarks)];
    AdmittedIff(c, s, batch);
    AdmittedIff(c, s, other);
    hide Admitted, Loadable, Holds;
    forall r | r in other && r.id in s.files ensures exists there :: Holds(c, s.files[r.id], there) && SameButRemarks(there, r) {
      var j :| 0 <= j < |other| && other[j] == r;
      var there :| Holds(c, s.files[r.id], there) && SameButRemarks(there, batch[j]);
      assert SameButRemarks(there, r);
    }
  }

  /** A whole publication: every record of the batch on disk, the missing ones as encoded, and a line for each that had none. */
  lemma PublishedWhole(c: Codec, s: State, batch: seq<Record>, n: nat)
    requires Admitted(c, s, batch) && n >= |Missing(s, batch)| + |Additions(c, s, batch)|
    ensures var (after, outcome) := Run(c, s, batch, n);
      && outcome == Done && after.place == Directory
      && (forall id :: id in s.files ==> id in after.files && after.files[id] == s.files[id])
      && (forall r :: r in batch && r.id !in s.files ==> r.id in after.files && after.files[r.id] == Regular(c.encode(r)))
      && (forall id :: id in after.files ==> id in s.files || exists r :: r in batch && r.id == id)
      && LinesOf(after.index) == LinesOf(s.index) + NewLines(c, Additions(c, s, batch))
  {
    var missing, additions := Missing(s, batch), Additions(c, s, batch);
    assert missing[..|missing|] == missing && additions[..|additions|] == additions;
    DistinctMissing(c, s, batch, |missing|);
    hide Run, Loadable, Compatible, WithFiles, WithLines, NewLines;
    RunStops(c, s, batch, n);
    LinesAre(c, s.index, additions);
    FileKeys(c, s.files, missing);
    forall id | id in s.files ensures WithFiles(c, s.files, missing)[id] == s.files[id] { FileStays(c, s.files, missing, id); }
    forall r | r in batch && r.id !in s.files ensures WithFiles(c, s.files, missing)[r.id] == Regular(c.encode(r)) { FileIsWritten(c, s.files, missing, r); }
  }

  /** Records and lines are written in the order of the batch. */
  lemma {:induction false} BatchOrderIsKept(batch: seq<Record>, ids: set<string>, k: nat)
    requires k <= |batch|
    ensures Outside(batch[..k], ids) <= Outside(batch, ids)
  {
    if k < |batch| {
      BatchOrderIsKept(batch[..|batch| - 1], ids, k);
      assert batch[..|batch| - 1][..k] == batch[..k];
    } else {
      assert batch[..k] == batch;
    }
  }

  /** A line for a record names it and says where it stands. */
  lemma NewLineSays(c: Codec, rs: seq<Record>, i: nat)
    requires i < |rs|
    ensures NewLines(c, rs)[i] == c.encodeLine(IndexEntry(rs[i].id, rs[i].fixture, rs[i].comparator, rs[i].severity, rs[i].status))
  {
  }
}
