/** The directory that a publication changes, and the publication itself. */
module LedgerFiles {
  import opened Wrappers
  import opened Sequences
  import opened Ledger
  import opened LedgerRecovery

  /** A batch is accepted whole: every record valid, no id twice. */
  method IndexValidatedRecords(c: Codec, batch: seq<Record>) returns (ok: bool)
    ensures ok <==> GoodBatch(c, batch)
  {
    var indexed := {};
    for i := 0 to |batch|
      invariant GoodBatch(c, batch[..i]) && indexed == set j | 0 <= j < i :: batch[j].id
    {
      var record := batch[i];
      if !c.valid(record) || record.id in indexed { return false; }
      indexed := indexed + {record.id};
    }
    assert batch[..|batch|] == batch;
    return true;
  }

  class LedgerDirectory {
    const c: Codec
    var place: Place
    var files: map<string, FileEntry>
    var index: IndexFile

    constructor (c: Codec, s: State)
      ensures this.c == c && Current() == s
    {
      this.c, place, files, index := c, s.place, s.files, s.index;
    }

    function Current(): State
      reads this
    {
      State(place, files, index)
    }

    /** Never overwrites: a file that is there already must say the same. */
    method PublishFile(id: string, payload: string) returns (ok: bool)
      modifies this`files
      ensures ok <==> (id in old(files) ==> old(files)[id] == Regular(payload))
      ensures files == if ok then old(files)[id := Regular(payload)] else old(files)
    {
      if id in files {
        ok := files[id] == Regular(payload);
        assert ok ==> files[id := Regular(payload)] == files;
      } else {
        files := files[id := Regular(payload)];
        ok := true;
      }
    }

    method AppendLine(r: Record)
      modifies this`index
      ensures index == Lines(LinesOf(old(index)) + [c.encodeLine(Projection(r))])
    {
      index := Lines(LinesOf(index) + [c.encodeLine(Projection(r))]);
    }

    /** The ids of the index, if all of it can be trusted. */
    method LoadIndex() returns (r: Option<set<string>>)
      ensures r.Some? <==> Loadable(c, Current())
      ensures r.Some? ==> r.value == IndexedIds(c, Current())
    {
      var lines := LinesOf(index);
      if index.IndexLink? || Bytes(c, lines) > MAX_LEDGER_FILE_BYTES { return None; }
      var indexed := {};
      assert Loaded(c, files, [], {});
      hide Loaded, Entries, Bytes;
      for i := 0 to |lines|
        invariant Loaded(c, files, lines[..i], indexed)
      {
        NextLine(c, files, lines, i, indexed);
        if !c.blank(lines[i]) {
          var e := c.decodeLine(lines[i]);
          if !Acceptable(c, files, lines[i], indexed) { return None; }
          indexed := indexed + {e.value.id};
        }
      }
      assert lines[..|lines|] == lines;
      AllLoaded(c, Current(), indexed);
      r := Some(indexed);
    }

    /** The records without a file, unless one that has a file is not the same record. */
    method SelectMissing(batch: seq<Record>) returns (r: Option<seq<Record>>)
      ensures r.Some? <==> forall q :: q in batch ==> Compatible(c, files, q)
      ensures r.Some? ==> r.value == Outside(batch, files.Keys)
    {
      var missing := [];
      hide Compatible;
      for i := 0 to |batch|
        invariant missing == Outside(batch[..i], files.Keys)
        invariant forall q :: q in batch[..i] ==> Compatible(c, files, q)
      {
        assert batch[..i + 1][..i] == batch[..i] && batch[i] in batch;
        if !Compatible(c, files, batch[i]) { return None; }
        if batch[i].id !in files { missing := missing + [batch[i]]; }
      }
      assert batch[..|batch|] == batch;
      r := Some(missing);
    }

    method SelectAdditions(batch: seq<Record>, indexed: set<string>) returns (additions: seq<Record>)
      ensures additions == Outside(batch, indexed)
    {
      additions := [];
      for i := 0 to |batch|
        invariant additions == Outside(batch[..i], indexed)
      {
        assert batch[..i + 1][..i] == batch[..i];
        if batch[i].id !in indexed { additions := additions + [batch[i]]; }
      }
      assert batch[..|batch|] == batch;
    }

    /** Writes files until all are written or the run is stopped. */
    method PublishMissing(missing: seq<Record>, writes: nat) returns (left: nat)
      requires DistinctIds(missing) && forall r :: r in missing ==> r.id !in files
      modifies this`files
      ensures files == WithFiles(c, old(files), missing[..Min(writes, |missing|)])
      ensures left == writes - Min(writes, |missing|)
    {
      left := writes;
      for i := 0 to |missing|
        invariant i <= writes && left == writes - i && files == WithFiles(c, old(files), missing[..i])
      {
        if left == 0 { return; }
        assert missing[..i + 1][..i] == missing[..i];
        FileKeys(c, old(files), missing[..i]);
        NotYet(missing, i);
        assert missing[i] in missing;
        var published := PublishFile(missing[i].id, c.encode(missing[i]));
        left := left - 1;
      }
    }

    method AppendMissing(additions: seq<Record>, writes: nat)
      modifies this`index
      ensures index == WithLines(c, old(index), additions[..Min(writes, |additions|)])
    {
      for i := 0 to |additions|
        invariant i <= writes && index == WithLines(c, old(index), additions[..i])
      {
        if i == writes { return; }
        assert additions[..i + 1][..i] == additions[..i];
        AppendLine(additions[i]);
      }
    }

    /**
      Publication: nothing is written before everything is validated, then the missing records, and
      only then the missing lines; the run may be stopped after any number of writes.
     */
    method Persist(batch: seq<Record>, writes: nat) returns (outcome: Outcome)
      modifies this
      ensures (Current(), outcome) == Run(c, old(Current()), batch, writes)
    {
      hide Compatible, Loadable, GoodBatch, Outside, Plan, WithFiles, WithLines, IndexedIds, DistinctIds, Admitted, Run;
      ghost var s := Current();
      RunRejects(c, s, batch, writes);
      var good := IndexValidatedRecords(c, batch);
      if !good || place.SomethingElse? { return Rejected; }
      place := Directory;
      SameButPlace(c, s, Current(), batch);
      var indexed := LoadIndex();
      if indexed.None? { return Rejected; }
      var missing := SelectMissing(batch);
      if missing.None? { return Rejected; }
      var additions := SelectAdditions(batch, indexed.value);
      BatchIsDistinct(c, batch);
      OutsideIsDistinct(batch, files.Keys);
      var left := PublishMissing(missing.value, writes);
      AppendMissing(additions, left);
      Finished(c, s, batch, missing.value, additions, writes);
      outcome := if writes < |missing.value| + |additions| then Stopped else Done;
    }
  }

  lemma SameButPlace(c: Codec, s: State, s': State, batch: seq<Record>)
    requires GoodBatch(c, batch) && !s.place.SomethingElse? && s' == Made(s)
    ensures Loadable(c, s') == Loadable(c, s)
    ensures Admitted(c, s, batch) <==> Loadable(c, s') && forall r :: r in batch ==> Compatible(c, s'.files, r)
    ensures Loadable(c, s) ==> IndexedIds(c, s') == IndexedIds(c, s)
  {
  }

  lemma RunRejects(c: Codec, s: State, batch: seq<Record>, n: nat)
    ensures !GoodBatch(c, batch) || s.place.SomethingElse? ==> Run(c, s, batch, n) == (s, Rejected)
    ensures GoodBatch(c, batch) && !s.place.SomethingElse? && !Admitted(c, s, batch) ==> Run(c, s, batch, n) == (Made(s), Rejected)
  {
    hide GoodBatch, Loadable, Compatible, Plan, ApplyAll;
  }

  lemma BatchIsDistinct(c: Codec, batch: seq<Record>)
    requires GoodBatch(c, batch)
    ensures DistinctIds(batch)
  {
  }

  lemma NotYet(rs: seq<Record>, i: nat)
    requires DistinctIds(rs) && i < |rs|
    ensures rs[i].id !in IdsOf(rs[..i])
  {
  }

  lemma Finished(c: Codec, s: State, batch: seq<Record>, missing: seq<Record>, additions: seq<Record>, writes: nat)
    requires Admitted(c, s, batch) && missing == Outside(batch, s.files.Keys) && additions == Outside(batch, IndexedIds(c, s))
    ensures var j := Min(writes, |missing|);
      var k := Min(writes - j, |additions|);
      && Run(c, s, batch, writes).0 == State(Directory, WithFiles(c, s.files, missing[..j]), WithLines(c, s.index, additions[..k]))
      && Run(c, s, batch, writes).1 == if writes < |missing| + |additions| then Stopped else Done
  {
    hide Run, Admitted, WithFiles, WithLines, Outside, IndexedIds;
    RunStops(c, s, batch, writes);
  }

  /** The lines read so far are true and within the limits, and `indexed` are their ids. */
  ghost predicate Loaded(c: Codec, files: map<string, FileEntry>, lines: seq<string>, indexed: set<string>) {
    var entries := Entries(c, lines);
    && Truthful(c, files, lines) && |entries| <= MAX_INDEXED_RECORDS
    && (forall l :: l in entries ==> Small(c, files, c.decodeLine(l).value.id))
    && indexed == (set id | id in Ids(c, entries)) && |indexed| == |entries|
  }

  lemma AllLoaded(c: Codec, s: State, indexed: set<string>)
    requires Loaded(c, s.files, LinesOf(s.index), indexed) && !s.index.IndexLink? && Bytes(c, LinesOf(s.index)) <= MAX_LEDGER_FILE_BYTES
    ensures Loadable(c, s) && indexed == IndexedIds(c, s)
  {
  }

  lemma {:induction false} EntriesPrefix(c: Codec, lines: seq<string>, k: nat)
    requires k <= |lines|
    ensures Entries(c, lines[..k]) <= Entries(c, lines)
  {
    if k == |lines| {
      assert lines[..k] == lines;
    } else {
      EntriesPrefix(c, lines[..|lines| - 1], k);
      assert lines[..|lines| - 1][..k] == lines[..k];
    }
  }

  lemma LineIdsAppend(c: Codec, entries: seq<string>, line: string, indexed: set<string>)
    requires (forall l :: l in entries ==> c.decodeLine(l).Some?) && c.decodeLine(line).Some?
    requires Distinct(Ids(c, entries)) && indexed == (set id | id in Ids(c, entries))
    ensures forall l :: l in entries + [line] ==> c.decodeLine(l).Some?
    ensures var id := c.decodeLine(line).value.id;
      && Ids(c, entries + [line]) == Ids(c, entries) + [id]
      && (Distinct(Ids(c, entries + [line])) <==> id !in indexed)
      && (set i | i in Ids(c, entries + [line])) == indexed + {id}
  {
    var id, ids := c.decodeLine(line).value.id, Ids(c, entries);
    assert forall l :: l in entries + [line] ==> l in entries || l == line;
    assert Ids(c, entries + [line]) == ids + [id];
    if id in indexed {
      var i :| 0 <= i < |ids| && ids[i] == id;
      assert (ids + [id])[i] == (ids + [id])[|ids|];
    }
  }

  /** A repeated id further on would be one repeated by now. */
  lemma DistinctPrefix(c: Codec, longer: seq<string>, entries: seq<string>)
    requires entries <= longer && (forall l :: l in longer ==> c.decodeLine(l).Some?) && Distinct(Ids(c, longer))
    ensures forall l :: l in entries ==> c.decodeLine(l).Some?
    ensures Distinct(Ids(c, entries))
  {
    assert forall i :: 0 <= i < |entries| ==> Ids(c, entries)[i] == Ids(c, longer)[i];
  }

  /** One more line: it is blank, or a true entry with a new id and room for it, or the index cannot be loaded. */
  lemma NextLine(c: Codec, files: map<string, FileEntry>, lines: seq<string>, i: nat, indexed: set<string>)
    requires i < |lines| && Loaded(c, files, lines[..i], indexed)
    ensures c.blank(lines[i]) ==> Loaded(c, files, lines[..i + 1], indexed)
    ensures !c.blank(lines[i]) ==>
      if Acceptable(c, files, lines[i], indexed) then Loaded(c, files, lines[..i + 1], indexed + {c.decodeLine(lines[i]).value.id})
      else !(Truthful(c, files, lines) && WithinLimits(c, files, lines))
  {
    var line, upTo := lines[i], lines[..i + 1];
    assert upTo[..i] == lines[..i] && upTo[i] == line;
    var entries := Entries(c, lines[..i]);
    EntriesPrefix(c, lines, i + 1);
    assert c.blank(line) ==> Entries(c, upTo) == entries + [] == entries;
    if !c.blank(line) {
      assert Entries(c, upTo) == entries + [line];
      AgreementIsDecoded(c, files, line);
      forall l | l in entries ensures c.decodeLine(l).Some? { AgreementIsDecoded(c, files, l); }
      hide Entries, Agrees, Small;
      if c.decodeLine(line).Some? { LineIdsAppend(c, entries, line, indexed); }
      assert forall l :: l in entries + [line] ==> l in entries || l == line;
      if !Acceptable(c, files, line, indexed) { CannotLoad(c, files, lines, entries, line, indexed); }
    }
  }

  predicate Acceptable(c: Codec, files: map<string, FileEntry>, line: string, indexed: set<string>) {
    && c.decodeLine(line).Some? && Agrees(c, files, line)
    && c.decodeLine(line).value.id !in indexed && Small(c, files, c.decodeLine(line).value.id) && |indexed| < MAX_INDEXED_RECORDS
  }

  lemma AgreementIsDecoded(c: Codec, files: map<string, FileEntry>, line: string)
    ensures Agrees(c, files, line) ==> c.decodeLine(line).Some?
  {
  }

  lemma CannotLoad(c: Codec, files: map<string, FileEntry>, lines: seq<string>, entries: seq<string>, line: string, indexed: set<string>)
    requires entries + [line] <= Entries(c, lines) && !Acceptable(c, files, line, indexed)
    requires (forall l :: l in entries ==> c.decodeLine(l).Some?) && Distinct(Ids(c, entries))
    requires indexed == (set id | id in Ids(c, entries)) && |indexed| == |entries|
    ensures !(Truthful(c, files, lines) && WithinLimits(c, files, lines))
  {
    var all := Entries(c, lines);
    assert all[|entries|] == line && line in all;
    AgreementIsDecoded(c, files, line);
    hide Entries, Agrees, Small;
    if Truthful(c, files, lines) && WithinLimits(c, files, lines) {
      forall l | l in all ensures c.decodeLine(l).Some? { AgreementIsDecoded(c, files, l); }
      DistinctPrefix(c, all, entries + [line]);
      LineIdsAppend(c, entries, line, indexed);
    }
  }
}
