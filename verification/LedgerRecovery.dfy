/** Stopping a publication anywhere and running it again. */
module LedgerRecovery {
  import opened Wrappers
  import opened Sequences
  import opened JsonText
  import opened Ledger

  ghost predicate DistinctIds(rs: seq<Record>) {
    forall i, j :: 0 <= i < j < |rs| ==> rs[i].id != rs[j].id
  }

  /** What was selected first is what a second selection no longer selects. */
  lemma {:induction false} OutsideMore(batch: seq<Record>, ids: set<string>, j: nat)
    requires DistinctIds(batch) && j <= |Outside(batch, ids)|
    ensures Outside(batch, ids + IdsOf(Outside(batch, ids)[..j])) == Outside(batch, ids)[j..]
  {
    if batch != [] {
      hide Outside, IdsOf;
      var front, r := batch[..|batch| - 1], batch[|batch| - 1];
      var before := Outside(front, ids);
      OutsideSnoc(batch, ids);
      OutsideSnoc(batch, ids + IdsOf(Outside(batch, ids)[..j]));
      DistinctFront(batch);
      if r.id in ids {
        OutsideMore(front, ids, j);
      } else if j <= |before| {
        OutsideMore(front, ids, j);
        assert (before + [r])[..j] == before[..j];
        SelectedBefore(front, ids, j, r);
        assert (before + [r])[j..] == before[j..] + [r];
      } else {
        OutsideMore(front, ids, |before|);
        assert (before + [r])[..j] == before + [r] && before[..|before|] == before;
        IdsOfSnoc(before, r);
        SelectedBefore(front, ids, |before|, r);
        OutsideIgnores(front, ids + IdsOf(before), r.id);
        assert ids + IdsOf(before) + {r.id} == ids + IdsOf(before + [r]);
      }
    } else {
      assert Outside(batch, ids)[..j] == [];
    }
  }

  lemma OutsideSnoc(batch: seq<Record>, ids: set<string>)
    requires batch != []
    ensures var front, r := batch[..|batch| - 1], batch[|batch| - 1];
      Outside(batch, ids) == if r.id in ids then Outside(front, ids) else Outside(front, ids) + [r]
  {
  }

  lemma DistinctFront(batch: seq<Record>)
    requires batch != [] && DistinctIds(batch)
    ensures var front, r := batch[..|batch| - 1], batch[|batch| - 1]; batch == front + [r] && DistinctIds(front) && DistinctIds(front + [r])
    ensures forall q :: q in batch[..|batch| - 1] ==> q.id != batch[|batch| - 1].id
  {
  }

  lemma IdsOfSnoc(rs: seq<Record>, r: Record)
    ensures IdsOf(rs + [r]) == IdsOf(rs) + {r.id}
  {
  }

  lemma SelectedBefore(front: seq<Record>, ids: set<string>, j: nat, r: Record)
    requires j <= |Outside(front, ids)| && DistinctIds(front + [r])
    ensures r.id !in IdsOf(Outside(front, ids)[..j])
  {
    var before := Outside(front, ids);
    forall q | q in before[..j] ensures q.id != r.id {
      assert q in before && q in front;
      var i :| 0 <= i < |front| && front[i] == q;
      assert (front + [r])[i] == q && (front + [r])[|front|] == r;
    }
  }

  lemma {:induction false} OutsideIgnores(batch: seq<Record>, ids: set<string>, id: string)
    requires forall r :: r in batch ==> r.id != id
    ensures Outside(batch, ids + {id}) == Outside(batch, ids)
  {
    if batch != [] { OutsideIgnores(batch[..|batch| - 1], ids, id); }
  }

  lemma {:induction false} OutsideIsDistinct(batch: seq<Record>, ids: set<string>)
    requires DistinctIds(batch)
    ensures DistinctIds(Outside(batch, ids))
  {
    if batch != [] {
      var front, r := batch[..|batch| - 1], batch[|batch| - 1];
      OutsideIsDistinct(front, ids);
      assert front + [r] == batch;
      SelectedBefore(front, ids, |Outside(front, ids)|, r);
      var before := Outside(front, ids);
      assert before[..|before|] == before;
      forall i | 0 <= i < |before| ensures before[i].id != r.id { assert before[i].id in IdsOf(before); }
    }
  }

  // ---- the state after some writes

  function WithFiles(c: Codec, files: map<string, FileEntry>, rs: seq<Record>): map<string, FileEntry> {
    if rs == [] then files else WithFiles(c, files, rs[..|rs| - 1])[rs[|rs| - 1].id := Regular(c.encode(rs[|rs| - 1]))]
  }

  function WithLines(c: Codec, index: IndexFile, rs: seq<Record>): IndexFile {
    if rs == [] then index else Lines(LinesOf(WithLines(c, index, rs[..|rs| - 1])) + [c.encodeLine(Projection(rs[|rs| - 1]))])
  }

  lemma {:induction false} FileKeys(c: Codec, files: map<string, FileEntry>, rs: seq<Record>)
    ensures WithFiles(c, files, rs).Keys == files.Keys + IdsOf(rs)
  {
    if rs != [] {
      var front, last := rs[..|rs| - 1], rs[|rs| - 1];
      FileKeys(c, files, front);
      assert rs == front + [last];
      assert IdsOf(rs) == IdsOf(front) + {last.id};
    }
  }

  lemma {:induction false} FileStays(c: Codec, files: map<string, FileEntry>, rs: seq<Record>, id: string)
    requires id in files && forall r :: r in rs ==> r.id != id
    ensures id in WithFiles(c, files, rs) && WithFiles(c, files, rs)[id] == files[id]
  {
    if rs != [] { FileStays(c, files, rs[..|rs| - 1], id); }
  }

  lemma {:induction false} FileIsWritten(c: Codec, files: map<string, FileEntry>, rs: seq<Record>, r: Record)
    requires DistinctIds(rs) && r in rs
    ensures r.id in WithFiles(c, files, rs) && WithFiles(c, files, rs)[r.id] == Regular(c.encode(r))
  {
    var front, last := rs[..|rs| - 1], rs[|rs| - 1];
    if r != last {
      assert rs == front + [last];
      FileIsWritten(c, files, front, r);
      var i :| 0 <= i < |front| && front[i] == r;
      assert rs[i].id != rs[|rs| - 1].id;
    }
  }

  /** The lines written for some records. */
  function NewLines(c: Codec, rs: seq<Record>): (ls: seq<string>)
    ensures |ls| == |rs| && forall i :: 0 <= i < |rs| ==> ls[i] == c.encodeLine(Projection(rs[i]))
  {
    seq(|rs|, i requires 0 <= i < |rs| => c.encodeLine(Projection(rs[i])))
  }

  lemma {:induction false} LinesAre(c: Codec, index: IndexFile, rs: seq<Record>)
    ensures LinesOf(WithLines(c, index, rs)) == LinesOf(index) + NewLines(c, rs)
    ensures WithLines(c, index, rs).IndexLink? ==> index.IndexLink?
  {
    if rs != [] {
      var front := rs[..|rs| - 1];
      LinesAre(c, index, front);
      assert NewLines(c, rs) == NewLines(c, front) + [c.encodeLine(Projection(rs[|rs| - 1]))];
    }
  }

  lemma EntriesSnoc(c: Codec, a: seq<string>, last: string)
    ensures Entries(c, a + [last]) == Entries(c, a) + if c.blank(last) then [] else [last]
  {
    assert (a + [last])[..|a|] == a;
  }

  lemma {:induction false} EntriesConcat(c: Codec, a: seq<string>, b: seq<string>)
    requires forall l :: l in b ==> !c.blank(l)
    ensures Entries(c, a + b) == Entries(c, a) + b
  {
    if b == [] {
      assert a + b == a;
    } else {
      hide Entries;
      var front, last := b[..|b| - 1], b[|b| - 1];
      EntriesConcat(c, a, front);
      EntriesSnoc(c, a + front, last);
      SnocConcat(a, b);
    }
  }

  lemma SnocConcat<T>(a: seq<T>, b: seq<T>)
    requires b != []
    ensures b == b[..|b| - 1] + [b[|b| - 1]]
    ensures a + b == (a + b[..|b| - 1]) + [b[|b| - 1]]
  {
  }

  // ---- what the writes of a plan come to

  lemma {:induction false} ApplyFiles(c: Codec, s: State, rs: seq<Record>)
    ensures ApplyAll(c, s, FileWrites(rs)) == s.(files := WithFiles(c, s.files, rs))
  {
    if rs != [] {
      var front := rs[..|rs| - 1];
      ApplyFiles(c, s, front);
      var ws := FileWrites(rs);
      assert ws[..|ws| - 1] == FileWrites(front);
    }
  }

  lemma {:induction false} ApplyLines(c: Codec, s: State, rs: seq<Record>)
    ensures ApplyAll(c, s, LineWrites(rs)) == s.(index := WithLines(c, s.index, rs))
  {
    if rs != [] {
      var front := rs[..|rs| - 1];
      ApplyLines(c, s, front);
      var ws := LineWrites(rs);
      assert ws[..|ws| - 1] == LineWrites(front);
    }
  }

  lemma {:induction false} ApplyConcat(c: Codec, s: State, a: seq<Write>, b: seq<Write>)
    ensures ApplyAll(c, s, a + b) == ApplyAll(c, ApplyAll(c, s, a), b)
  {
    if b == [] {
      assert a + b == a;
    } else {
      ApplyConcat(c, s, a, b[..|b| - 1]);
      assert (a + b)[..|a + b| - 1] == a + b[..|b| - 1];
    }
  }

  ghost function Missing(s: State, batch: seq<Record>): seq<Record> {
    Outside(batch, s.files.Keys)
  }

  ghost function Additions(c: Codec, s: State, batch: seq<Record>): seq<Record>
    requires Truthful(c, s.files, LinesOf(s.index))
  {
    Outside(batch, IndexedIds(c, s))
  }

  /** `j` record files and `k` lines later. */
  ghost function After(c: Codec, s: State, missing: seq<Record>, additions: seq<Record>, j: nat, k: nat): State
    requires j <= |missing| && k <= |additions|
  {
    State(Directory, WithFiles(c, s.files, missing[..j]), WithLines(c, s.index, additions[..k]))
  }

  /** The first `n` writes of a plan: some record files, and only after the last of them some lines. */
  lemma FirstWrites(c: Codec, s: State, missing: seq<Record>, additions: seq<Record>, n: nat)
    requires n <= |missing| + |additions|
    ensures var j := Min(n, |missing|);
      ApplyAll(c, Made(s), (FileWrites(missing) + LineWrites(additions))[..n]) == After(c, s, missing, additions, j, n - j)
  {
    var j := Min(n, |missing|);
    var a, b := missing[..j], additions[..n - j];
    assert (FileWrites(missing) + LineWrites(additions))[..n] == FileWrites(a) + LineWrites(b);
    ApplyFiles(c, Made(s), a);
    ApplyLines(c, Made(s).(files := WithFiles(c, s.files, a)), b);
    ApplyConcat(c, Made(s), FileWrites(a), LineWrites(b));
  }

  // ---- what a stopped run leaves behind

  /** An entry of the index goes on agreeing with its record while others are written. */
  lemma AgreementStays(c: Codec, files: map<string, FileEntry>, rs: seq<Record>, line: string)
    requires Agrees(c, files, line) && forall r :: r in rs ==> r.id !in files
    ensures Agrees(c, WithFiles(c, files, rs), line)
    ensures WithFiles(c, files, rs)[c.decodeLine(line).value.id] == files[c.decodeLine(line).value.id]
  {
    FileStays(c, files, rs, c.decodeLine(line).value.id);
  }

  /** A line written for a record agrees with the record's file, whichever run wrote that. */
  lemma NewLineAgrees(c: Codec, files: map<string, FileEntry>, batch: seq<Record>, r: Record)
    requires c.Faithful() && GoodBatch(c, batch) && r in batch && Compatible(c, files, r)
    ensures Agrees(c, WithFiles(c, files, Outside(batch, files.Keys)), c.encodeLine(Projection(r)))
  {
    var missing := Outside(batch, files.Keys);
    OutsideIsDistinct(batch, files.Keys);
    assert c.decodeLine(c.encodeLine(Projection(r))) == Some(Projection(r));
    if r.id in files {
      FileStays(c, files, missing, r.id);
      assert Projection(Stored(c, files, r.id)) == Projection(r);
    } else {
      FileIsWritten(c, files, missing, r);
    }
  }

  lemma NewIds(c: Codec, rs: seq<Record>)
    requires c.Faithful() && forall r :: r in rs ==> c.valid(r)
    ensures forall l :: l in NewLines(c, rs) ==> !c.blank(l) && c.decodeLine(l).Some?
    ensures |Ids(c, NewLines(c, rs))| == |rs| && forall i :: 0 <= i < |rs| ==> Ids(c, NewLines(c, rs))[i] == rs[i].id
  {
    forall i | 0 <= i < |rs|
      ensures c.decodeLine(NewLines(c, rs)[i]) == Some(Projection(rs[i])) && !c.blank(NewLines(c, rs)[i])
    {
      assert rs[i] in rs && c.valid(rs[i]);
    }
  }

  lemma IdsConcat(c: Codec, a: seq<string>, b: seq<string>)
    requires forall l :: l in a || l in b ==> c.decodeLine(l).Some?
    ensures Ids(c, a + b) == Ids(c, a) + Ids(c, b)
  {
  }

  ghost predicate StoppedAt(c: Codec, s: State, batch: seq<Record>, j: nat, k: nat) {
    && c.Faithful() && Admitted(c, s, batch)
    && j <= |Missing(s, batch)| && k <= |Additions(c, s, batch)| && (k > 0 ==> j == |Missing(s, batch)|)
  }

  lemma EntriesAfter(c: Codec, index: IndexFile, rs: seq<Record>)
    requires c.Faithful() && forall r :: r in rs ==> c.valid(r)
    ensures Entries(c, LinesOf(WithLines(c, index, rs))) == Entries(c, LinesOf(index)) + NewLines(c, rs)
  {
    LinesAre(c, index, rs);
    NewIds(c, rs);
    EntriesConcat(c, LinesOf(index), NewLines(c, rs));
  }

  lemma OldEntriesAgree(c: Codec, s: State, batch: seq<Record>, j: nat)
    requires Truthful(c, s.files, LinesOf(s.index)) && j <= |Missing(s, batch)|
    ensures forall l :: l in Entries(c, LinesOf(s.index)) ==> Agrees(c, WithFiles(c, s.files, Missing(s, batch)[..j]), l)
  {
    var rs := Missing(s, batch)[..j];
    hide WithFiles, Entries, Agrees, Distinct;
    forall l | l in Entries(c, LinesOf(s.index)) ensures Agrees(c, WithFiles(c, s.files, rs), l) {
      AgreementStays(c, s.files, rs, l);
    }
  }

  lemma NewEntriesAgree(c: Codec, s: State, batch: seq<Record>, rs: seq<Record>)
    requires c.Faithful() && Admitted(c, s, batch) && forall r :: r in rs ==> r in batch
    ensures forall l :: l in NewLines(c, rs) ==> Agrees(c, WithFiles(c, s.files, Missing(s, batch)), l)
  {
    hide Agrees, WithFiles, Loadable, Compatible, Outside, c.Faithful;
    forall l | l in NewLines(c, rs) ensures Agrees(c, WithFiles(c, s.files, Missing(s, batch)), l) {
      var i :| 0 <= i < |rs| && l == c.encodeLine(Projection(rs[i]));
      assert rs[i] in rs;
      NewLineAgrees(c, s.files, batch, rs[i]);
    }
  }

  lemma EntriesAgree(c: Codec, s: State, batch: seq<Record>, j: nat, k: nat)
    requires StoppedAt(c, s, batch, j, k)
    ensures var after := After(c, s, Missing(s, batch), Additions(c, s, batch), j, k);
      forall l :: l in Entries(c, LinesOf(after.index)) ==> Agrees(c, after.files, l)
  {
    var missing, additions := Missing(s, batch), Additions(c, s, batch);
    var rs := additions[..k];
    assert forall r :: r in rs ==> r in batch;
    EntriesAfter(c, s.index, rs);
    OldEntriesAgree(c, s, batch, j);
    NewEntriesAgree(c, s, batch, rs);
    hide Agrees, WithFiles, Entries, WithLines, Outside, c.Faithful, Admitted;
    if k > 0 {
      assert missing[..j] == missing;
    } else {
      assert NewLines(c, rs) == [];
    }
  }

  /** Wherever a run is stopped, every entry of the index agrees with its record and none is listed twice. */
  lemma StoppedIsTruthful(c: Codec, s: State, batch: seq<Record>, j: nat, k: nat)
    requires StoppedAt(c, s, batch, j, k)
    ensures var after := After(c, s, Missing(s, batch), Additions(c, s, batch), j, k);
      && Truthful(c, after.files, LinesOf(after.index))
      && IndexedIds(c, after) == IndexedIds(c, s) + IdsOf(Additions(c, s, batch)[..k])
  {
    var additions := Additions(c, s, batch);
    var rs, entries := additions[..k], Entries(c, LinesOf(s.index));
    EntriesAgree(c, s, batch, j, k);
    EntriesAfter(c, s.index, rs);
    NewIds(c, rs);
    OutsideIsDistinct(batch, IndexedIds(c, s));
    hide Entries, WithFiles, WithLines, NewLines, Outside;
    IdsConcat(c, entries, NewLines(c, rs));
    DistinctConcat(Ids(c, entries), Ids(c, NewLines(c, rs)), rs, IndexedIds(c, s));
  }

  lemma DistinctConcat(a: seq<string>, b: seq<string>, rs: seq<Record>, ids: set<string>)
    requires Distinct(a) && DistinctIds(rs) && |b| == |rs| && forall i :: 0 <= i < |b| ==> b[i] == rs[i].id
    requires ids == (set id | id in a) && forall r :: r in rs ==> r.id !in ids
    ensures Distinct(a + b) && (set id | id in a + b) == ids + IdsOf(rs)
  {
    var both := a + b;
    forall i, j | 0 <= i < j < |both| ensures both[i] != both[j] {
      if i < |a| <= j { assert rs[j - |a|] in rs && both[i] in ids; }
    }
    forall id ensures id in both <==> id in ids + IdsOf(rs) {
      if id in IdsOf(rs) {
        var r :| r in rs && r.id == id;
        var i :| 0 <= i < |rs| && rs[i] == r;
        assert both[|a| + i] == id;
      }
      if id in b {
        var i :| 0 <= i < |b| && b[i] == id;
        assert rs[i] in rs;
      }
    }
  }

  // ---- running again

  /** The exact condition for running again: what was left on disk is within the limits of what is read back. */
  ghost predicate ReadBack(c: Codec, s: State, missing: seq<Record>, additions: seq<Record>, j: nat, k: nat)
    requires j <= |missing| && k <= |additions|
  {
    var after := After(c, s, missing, additions, j, k);
    && WithinLimits(c, after.files, LinesOf(after.index))
    && forall r :: r in missing[..j] ==> c.size(c.encode(r)) <= MAX_LEDGER_FILE_BYTES
  }

  lemma CompatibleAfter(c: Codec, s: State, batch: seq<Record>, j: nat, r: Record)
    requires c.Faithful() && GoodBatch(c, batch) && r in batch && Compatible(c, s.files, r) && j <= |Missing(s, batch)|
    ensures var rs := Missing(s, batch)[..j];
      Compatible(c, WithFiles(c, s.files, rs), r) <==> (r in rs ==> c.size(c.encode(r)) <= MAX_LEDGER_FILE_BYTES)
  {
    hide Outside, WithFiles, c.Faithful, Compatible, GoodBatch, Missing, DistinctIds, IdsOf;
    var rs := Missing(s, batch)[..j];
    RecordRoundTrip(c, batch, r);
    MissingFacts(c, s, batch, j);
    FileKeys(c, s.files, rs);
    if r.id in s.files {
      FileStays(c, s.files, rs, r.id);
      CompatibleAsBefore(c, s.files, WithFiles(c, s.files, rs), r);
    } else if r in rs {
      FileIsWritten(c, s.files, rs, r);
      CompatibleIfSmall(c, WithFiles(c, s.files, rs), r);
    } else {
      CompatibleIfAbsent(c, WithFiles(c, s.files, rs), r);
      NotWritten(batch, rs, r);
    }
  }

  lemma RecordRoundTrip(c: Codec, batch: seq<Record>, r: Record)
    requires c.Faithful() && GoodBatch(c, batch) && r in batch
    ensures c.valid(r) && c.decode(c.encode(r)) == Some(r)
  {
  }

  lemma MissingFacts(c: Codec, s: State, batch: seq<Record>, j: nat)
    requires GoodBatch(c, batch) && j <= |Missing(s, batch)|
    ensures DistinctIds(batch) && DistinctIds(Missing(s, batch)[..j])
    ensures forall q :: q in Missing(s, batch)[..j] ==> q in batch && q.id !in s.files
  {
    OutsideIsDistinct(batch, s.files.Keys);
    hide Outside;
    assert forall q :: q in Missing(s, batch)[..j] ==> q in Missing(s, batch);
  }

  lemma CompatibleAsBefore(c: Codec, files: map<string, FileEntry>, files': map<string, FileEntry>, r: Record)
    requires r.id in files && r.id in files' && files'[r.id] == files[r.id]
    ensures Compatible(c, files', r) <==> Compatible(c, files, r)
  {
  }

  lemma CompatibleIfSmall(c: Codec, files: map<string, FileEntry>, r: Record)
    requires r.id in files && files[r.id] == Regular(c.encode(r)) && c.valid(r) && c.decode(c.encode(r)) == Some(r)
    ensures Compatible(c, files, r) <==> c.size(c.encode(r)) <= MAX_LEDGER_FILE_BYTES
  {
  }

  lemma CompatibleIfAbsent(c: Codec, files: map<string, FileEntry>, r: Record)
    ensures r.id !in files ==> Compatible(c, files, r)
  {
  }

  lemma NotWritten(batch: seq<Record>, rs: seq<Record>, r: Record)
    requires DistinctIds(batch) && r in batch && r !in rs && forall q :: q in rs ==> q in batch
    ensures r.id !in IdsOf(rs)
  {
    forall q | q in rs ensures q.id != r.id {
      var a :| 0 <= a < |batch| && batch[a] == q;
      var b :| 0 <= b < |batch| && batch[b] == r;
      assert a != b;
      if a < b { assert batch[a].id != batch[b].id; } else { assert batch[b].id != batch[a].id; }
    }
  }

  /** A stopped run can be run again exactly when what it left can be read back. */
  lemma RunsAgainIff(c: Codec, s: State, batch: seq<Record>, j: nat, k: nat)
    requires StoppedAt(c, s, batch, j, k)
    ensures var missing, additions := Missing(s, batch), Additions(c, s, batch);
      Admitted(c, After(c, s, missing, additions, j, k), batch) <==> ReadBack(c, s, missing, additions, j, k)
  {
    var missing, additions := Missing(s, batch), Additions(c, s, batch);
    var after := After(c, s, missing, additions, j, k);
    StoppedIsTruthful(c, s, batch, j, k);
    LinesAre(c, s.index, additions[..k]);
    forall r | r in batch
      ensures Compatible(c, after.files, r) <==> (r in missing[..j] ==> c.size(c.encode(r)) <= MAX_LEDGER_FILE_BYTES)
    {
      CompatibleAfter(c, s, batch, j, r);
    }
    hide Compatible, Truthful, WithinLimits, WithFiles, WithLines;
    assert forall r :: r in missing[..j] ==> r in batch;
  }

  /** What is then left to write is the rest of the plan. */
  lemma RestOfPlan(c: Codec, s: State, batch: seq<Record>, j: nat, k: nat)
    requires StoppedAt(c, s, batch, j, k)
    ensures var missing, additions := Missing(s, batch), Additions(c, s, batch);
      var after := After(c, s, missing, additions, j, k);
      && Truthful(c, after.files, LinesOf(after.index))
      && Missing(after, batch) == missing[j..] && Additions(c, after, batch) == additions[k..]
  {
    var missing, additions := Missing(s, batch), Additions(c, s, batch);
    StoppedIsTruthful(c, s, batch, j, k);
    OutsideMore(batch, s.files.Keys, j);
    FileKeys(c, s.files, missing[..j]);
    OutsideMore(batch, IndexedIds(c, s), k);
  }

  /**
    Crash recovery: stop a run after any number of writes and run the same batch again, itself
    stopped after any number. If what the first run left can be read back, the two runs together
    are one run stopped after as many writes; if not, the second is rejected and writes nothing.
   */
  lemma RunTwice(c: Codec, s: State, batch: seq<Record>, n: nat, m: nat)
    requires c.Faithful() && Admitted(c, s, batch) && n <= |Plan(c, Made(s), batch)|
    ensures var missing, additions := Missing(s, batch), Additions(c, s, batch);
      var j := Min(n, |missing|);
      var between := Run(c, s, batch, n).0;
      Run(c, between, batch, m) == if ReadBack(c, s, missing, additions, j, n - j) then Run(c, s, batch, n + m) else (between, Rejected)
  {
    var missing, additions := Missing(s, batch), Additions(c, s, batch);
    var j := Min(n, |missing|);
    StoppedState(c, s, batch, n);
    RunsAgainIff(c, s, batch, j, n - j);
    hide After, ReadBack, Admitted, Run, StoppedAt, Plan;
    var between := After(c, s, missing, additions, j, n - j);
    if ReadBack(c, s, missing, additions, j, n - j) {
      RunAgain(c, s, batch, n, m, j, n - j);
    } else {
      RejectedAgain(c, s, between, batch, m);
    }
  }

  lemma StoppedState(c: Codec, s: State, batch: seq<Record>, n: nat)
    requires c.Faithful() && Admitted(c, s, batch) && n <= |Plan(c, Made(s), batch)|
    ensures var missing, additions := Missing(s, batch), Additions(c, s, batch);
      var j := Min(n, |missing|);
      && StoppedAt(c, s, batch, j, n - j)
      && Run(c, s, batch, n).0 == After(c, s, missing, additions, j, n - j)
      && Run(c, s, batch, n).0.place == Directory
  {
    RunIs(c, s, batch, n);
    hide Run, Plan, ApplyAll, FileWrites, LineWrites, WithFiles, WithLines;
    FirstWrites(c, s, Missing(s, batch), Additions(c, s, batch), n);
  }

  lemma RunAgain(c: Codec, s: State, batch: seq<Record>, n: nat, m: nat, j: nat, k: nat)
    requires StoppedAt(c, s, batch, j, k) && n == j + k && j == Min(n, |Missing(s, batch)|)
    requires Admitted(c, After(c, s, Missing(s, batch), Additions(c, s, batch), j, k), batch)
    ensures Run(c, After(c, s, Missing(s, batch), Additions(c, s, batch), j, k), batch, m) == Run(c, s, batch, n + m)
  {
    hide After, Admitted, Run, StoppedAt, Plan, ApplyAll, FileWrites, LineWrites, Truthful, Missing, Additions, Carried;
    StoppedFacts(c, s, batch, j, k);
    var missing, additions := Missing(s, batch), Additions(c, s, batch);
    var between := After(c, s, missing, additions, j, k);
    RestOfPlan(c, s, batch, j, k);
    SecondPlan(c, between, batch, missing, additions, j, k);
    RunIs(c, between, batch, m);
    RunIs(c, s, batch, n + m);
    FirstWrites(c, s, missing, additions, n);
    TwoRuns(c, Made(s), Plan(c, Made(s), batch), n, m, between, Plan(c, Made(between), batch));
  }

  lemma StoppedFacts(c: Codec, s: State, batch: seq<Record>, j: nat, k: nat)
    requires StoppedAt(c, s, batch, j, k)
    ensures Admitted(c, s, batch) && Truthful(c, s.files, LinesOf(s.index))
    ensures j <= |Missing(s, batch)| && k <= |Additions(c, s, batch)| && (k > 0 ==> j == |Missing(s, batch)|)
    ensures var after := After(c, s, Missing(s, batch), Additions(c, s, batch), j, k); Made(after) == after
  {
  }

  lemma RejectedAgain(c: Codec, s: State, between: State, batch: seq<Record>, m: nat)
    requires Admitted(c, s, batch) && between.place == Directory && !Admitted(c, between, batch)
    ensures Run(c, between, batch, m) == (between, Rejected)
  {
    hide Loadable, Compatible;
    assert Made(between) == between;
  }

  lemma TwoRuns(c: Codec, s: State, plan: seq<Write>, n: nat, m: nat, between: State, rest: seq<Write>)
    requires n <= |plan| && between == ApplyAll(c, s, plan[..n]) && rest == plan[n..]
    ensures Carried(c, between, rest, m) == Carried(c, s, plan, n + m)
  {
    var l := Min(m, |rest|);
    assert Min(n + m, |plan|) == n + l;
    hide ApplyAll;
    assert plan[..n] + rest[..l] == plan[..n + l];
    ApplyConcat(c, s, plan[..n], rest[..l]);
  }

  /** The first `n` writes of a plan carried out, or all of them. */
  ghost function Carried(c: Codec, s: State, plan: seq<Write>, n: nat): (State, Outcome) {
    (ApplyAll(c, s, plan[..Min(n, |plan|)]), if n < |plan| then Stopped else Done)
  }

  /** A run of an admitted batch, as a prefix of its plan. */
  lemma RunIs(c: Codec, s: State, batch: seq<Record>, n: nat)
    requires Admitted(c, s, batch)
    ensures var plan := Plan(c, Made(s), batch);
      && plan == FileWrites(Missing(s, batch)) + LineWrites(Additions(c, s, batch))
      && |plan| == |Missing(s, batch)| + |Additions(c, s, batch)|
      && Run(c, s, batch, n) == Carried(c, Made(s), plan, n)
  {
    var plan := Plan(c, Made(s), batch);
    assert plan[..|plan|] == plan;
  }

  lemma SecondPlan(c: Codec, s: State, batch: seq<Record>, missing: seq<Record>, additions: seq<Record>, j: nat, k: nat)
    requires j <= |missing| && k <= |additions| && (k > 0 ==> j == |missing|)
    requires Truthful(c, s.files, LinesOf(s.index)) && Missing(s, batch) == missing[j..] && Additions(c, s, batch) == additions[k..]
    ensures Plan(c, Made(s), batch) == (FileWrites(missing) + LineWrites(additions))[j + k..]
  {
    assert Plan(c, Made(s), batch) == FileWrites(missing[j..]) + LineWrites(additions[k..]);
    hide Plan;
    assert FileWrites(missing[j..]) == FileWrites(missing)[j..];
    assert LineWrites(additions[k..]) == LineWrites(additions)[k..];
  }

  /** Stopped anywhere and rerun to the end: the same records and the same index as without the stop, and every entry true. */
  lemma CrashRecovery(c: Codec, s: State, batch: seq<Record>, n: nat)
    requires c.Faithful() && Admitted(c, s, batch) && n <= |Plan(c, Made(s), batch)|
    ensures var missing := Missing(s, batch);
      var (between, _) := Run(c, s, batch, n);
      var (whole, outcome) := Run(c, s, batch, |Plan(c, Made(s), batch)|);
      && outcome == Done
      && Truthful(c, between.files, LinesOf(between.index)) && Truthful(c, whole.files, LinesOf(whole.index))
      && (Run(c, between, batch, |Plan(c, Made(s), batch)|) == (whole, Done)
          <==> ReadBack(c, s, missing, Additions(c, s, batch), Min(n, |missing|), n - Min(n, |missing|)))
  {
    var missing, additions := Missing(s, batch), Additions(c, s, batch);
    var total := |Plan(c, Made(s), batch)|;
    RunIs(c, s, batch, n);
    RunIs(c, s, batch, total);
    RunTwice(c, s, batch, n, total);
    RunIs(c, s, batch, n + total);
    StoppedWithin(c, s, batch, n);
    StoppedWithin(c, s, batch, total);
  }

  lemma StoppedWithin(c: Codec, s: State, batch: seq<Record>, n: nat)
    requires c.Faithful() && Admitted(c, s, batch) && n <= |Plan(c, Made(s), batch)|
    ensures var between := Run(c, s, batch, n).0; Truthful(c, between.files, LinesOf(between.index))
  {
    hide Run, Plan, After, StoppedAt, Admitted, Missing, Additions, Truthful, IndexedIds, c.Faithful;
    StoppedState(c, s, batch, n);
    StoppedIsTruthful(c, s, batch, Min(n, |Missing(s, batch)|), n - Min(n, |Missing(s, batch)|));
  }

  // ---- records that are too long to be read back

  /**
    Publication does not measure what it writes. Once a record over the size limit is written, every
    later run of a batch that holds it is rejected, and changes nothing.
   */
  lemma OverlongRecordBlocksRerun(c: Codec, s: State, batch: seq<Record>, r: Record, n: nat, later: seq<Record>, m: nat)
    requires Admitted(c, s, batch) && r in Missing(s, batch)[..Min(n, |Missing(s, batch)|)]
    requires c.size(c.encode(r)) > MAX_LEDGER_FILE_BYTES && r in later
    ensures var published := Run(c, s, batch, n).0;
      r.id in published.files && published.files[r.id] == Regular(c.encode(r)) && Run(c, published, later, m) == (published, Rejected)
  {
    var missing, additions := Missing(s, batch), Additions(c, s, batch);
    var j := Min(n, |missing|);
    var k := Min(n - j, |additions|);
    hide Run, Plan, WithFiles, WithLines, Loadable, IndexedIds, Truthful, Outside, Admitted, Compatible;
    RunStops(c, s, batch, n);
    DistinctMissing(c, s, batch, j);
    FileIsWritten(c, s.files, missing[..j], r);
    var published := Run(c, s, batch, n).0;
    NotCompatible(c, published.files, r);
    RejectedFor(c, published, later, r, m);
  }

  /** What a run leaves, and how it ends. */
  lemma RunStops(c: Codec, s: State, batch: seq<Record>, n: nat)
    requires Admitted(c, s, batch)
    ensures var missing, additions := Missing(s, batch), Additions(c, s, batch);
      var j := Min(n, |missing|);
      Run(c, s, batch, n) == (After(c, s, missing, additions, j, Min(n - j, |additions|)), if n < |missing| + |additions| then Stopped else Done)
  {
    hide Run, Plan, ApplyAll, After, Missing, Additions, FileWrites, LineWrites, Compatible, Truthful, WithinLimits;
    var missing, additions := Missing(s, batch), Additions(c, s, batch);
    RunIs(c, s, batch, n);
    SplitWrites(n, |missing|, |additions|);
    FirstWrites(c, s, missing, additions, Min(n, |missing| + |additions|));
  }

  lemma SplitWrites(n: nat, a: nat, b: nat)
    ensures var l, j := Min(n, a + b), Min(n, a); Min(l, a) == j && l - j == Min(n - j, b)
  {
  }

  lemma DistinctMissing(c: Codec, s: State, batch: seq<Record>, j: nat)
    requires Admitted(c, s, batch) && j <= |Missing(s, batch)|
    ensures DistinctIds(Missing(s, batch)[..j])
  {
    hide Loadable, Compatible;
    OutsideIsDistinct(batch, s.files.Keys);
  }

  lemma NotCompatible(c: Codec, files: map<string, FileEntry>, r: Record)
    requires r.id in files && files[r.id] == Regular(c.encode(r)) && c.size(c.encode(r)) > MAX_LEDGER_FILE_BYTES
    ensures !Compatible(c, files, r)
  {
  }

  lemma RejectedFor(c: Codec, s: State, batch: seq<Record>, r: Record, n: nat)
    requires s.place == Directory && r in batch && !Compatible(c, s.files, r)
    ensures Run(c, s, batch, n) == (s, Rejected)
  {
    hide Loadable, Compatible, Plan, ApplyAll;
  }

  // ---- such records can be received

  const MAX_ENVELOPE_LINE_BYTES: nat := 4 * 1024 * 1024

  /** The text of a record: keys in order, two spaces a level. */
  function RecordText(r: Record): string {
    Dump(RecordJson(r), 0) + "\n"
  }

  type Field = (string, Json)

  function RecordJson(r: Record): Json {
    var fields := RecordFields(r);
    Object(seq(|fields|, i requires 0 <= i < |fields| => fields[i].0), seq(|fields|, i requires 0 <= i < |fields| => fields[i].1))
  }

  /** The fields in the order of their keys, an optional one only if the record has it. */
  function RecordFields(r: Record): seq<Field> {
    FieldsBefore(r) + [("differences", DifferencesJson(r.differences))] + FieldsAfter(r)
  }

  function FieldsBefore(r: Record): seq<Field> {
    Optional(r, "affected_claim") + Optional(r, "affected_stage") + Optional(r, "closure_test")
    + [("comparator", Text(r.comparator))] + Optional(r, "created_at_utc")
  }

  function FieldsAfter(r: Record): seq<Field> {
    [("discrepancy_id", Text(r.id))] + Optional(r, "environment") + [("fixture_id", Text(r.fixture))]
    + Optional(r, "outcome_classes") + Optional(r, "owner")
    + [("profile_id", Text(r.profile)), ("schema_version", Scalar("1")), ("severity", Text(r.severity)), ("status", Text(r.status))]
  }

  function Optional(r: Record, key: string): seq<Field> {
    if key in r.remarks then [(key, r.remarks[key])] else []
  }

  function DifferencesJson(ds: seq<Difference>): Json {
    Array(seq(|ds|, i requires 0 <= i < |ds| => Object(["candidate", "oracle", "path"], [ds[i].candidate, ds[i].oracle, Text(ds[i].path)])))
  }

  /** One line of the oracle's observations, of the value `v` under the key "value". */
  function Envelope(profile: string, fixture: string, v: Json): Json {
    Object(["environment", "fixture_id", "observations", "outcome_class", "profile_id", "schema_version", "side"],
           [Object([], []), Text(fixture), Object(["value"], [v]), Text("returned"), Text(profile), Scalar("1"), Text("upstream_oracle")])
  }

  /** The discrepancy found where the oracle observes `v` there and the candidate a number. */
  function Discrepancy(id: string, profile: string, fixture: string, v: Json, created: string): Record {
    Record(1, id, profile, fixture, "exact_surface", [Difference("observations.value", v, Scalar("0"))], "object", "open",
           map["created_at_utc" := Text(created), "environment" := Object([], [])])
  }

  lemma RecordIsLonger(r: Record)
    requires r.differences != []
    ensures |RecordText(r)| >= |Dump(r.differences[0].oracle, 3)|
  {
    var j, ds := RecordJson(r), DifferencesJson(r.differences);
    var i := |FieldsBefore(r)|;
    hide Dump, FieldsBefore, FieldsAfter;
    assert RecordFields(r)[i] == ("differences", ds) && j.items[i] == ds;
    DumpIsLonger(j, i, 0);
    DumpIsLonger(ds, 0, 1);
    DumpIsLonger(ds.items[0], 1, 2);
  }

  /**
    Under any codec that writes the record as indented JSON and counts no fewer bytes than
    characters: the line the record comes from keeps far below its limit, the record is published,
    and from then on every run of a batch that holds it is rejected.
   */
  lemma IndentedRecordBlocksRerun(c: Codec, id: string, profile: string, fixture: string, created: string, later: seq<Record>, n: nat, m: nat)
    requires |profile| <= 100 && |fixture| <= 100
    requires var r := Discrepancy(id, profile, fixture, Bulky(), created); c.valid(r) && c.encode(r) == RecordText(r) && c.size(RecordText(r)) >= |RecordText(r)|
    requires n >= 1 && Discrepancy(id, profile, fixture, Bulky(), created) in later
    ensures |Compact(Envelope(profile, fixture, Bulky()))| <= MAX_ENVELOPE_LINE_BYTES
    ensures var r, empty := Discrepancy(id, profile, fixture, Bulky(), created), State(Directory, map[], NoIndex);
      var published := Run(c, empty, [r], n).0;
      published.files == map[id := Regular(RecordText(r))] && Run(c, published, later, m) == (published, Rejected)
  {
    hide Bulky, RecordText, Run, Compact, Dump, Envelope;
    var r, empty := Discrepancy(id, profile, fixture, Bulky(), created), State(Directory, map[], NoIndex);
    BulkyTexts(3);
    RecordIsLonger(r);
    EnvelopeIsShort(profile, fixture, Bulky());
    OnlyRecord(c, r);
    assert [r][..1] == [r];
    OverlongRecordBlocksRerun(c, empty, [r], r, n, later, m);
    RunStops(c, empty, [r], n);
  }

  lemma EnvelopeIsShort(profile: string, fixture: string, v: Json)
    ensures |Compact(Envelope(profile, fixture, v))| <= |Compact(v)| + |profile| + |fixture| + 400
  {
    hide Compact, CompactItems;
    var j := Envelope(profile, fixture, v);
    var inner := j.items[2];
    assert inner == Object(["value"], [v]) && j.items[0] == Object([], []);
    CompactObject(j.items[0]);
    CompactObject(inner);
    CompactNext(inner, 0);
    CompactObject(j);
    CompactNext(j, 0);
    CompactNext(j, 1);
    CompactNext(j, 2);
    CompactNext(j, 3);
    CompactNext(j, 4);
    CompactNext(j, 5);
    CompactNext(j, 6);
    ShortTexts(profile, fixture);
  }

  lemma ShortTexts(profile: string, fixture: string)
    ensures |Compact(Text(fixture))| == |fixture| + 2 && |Compact(Text(profile))| == |profile| + 2 && |Compact(Scalar("1"))| == 1
    ensures |Compact(Text("returned"))| == 10 && |Compact(Text("upstream_oracle"))| == 17 && |CompactItems(Object([], []), 0)| == 0
  {
  }

  /** A first record is admitted, and missing. */
  lemma OnlyRecord(c: Codec, r: Record)
    requires c.valid(r)
    ensures var empty := State(Directory, map[], NoIndex);
      Admitted(c, empty, [r]) && Missing(empty, [r]) == [r] && WithFiles(c, map[], [r]) == map[r.id := Regular(c.encode(r))]
  {
    hide Loadable, IndexedIds, Truthful, Outside;
    NothingIsLoadable(c);
    OutsideOne(r);
    assert [r][..0] == [];
    assert State(Directory, map[], NoIndex).files.Keys == {};
    assert WithFiles(c, map[], []) == map[];
  }

  lemma OutsideOne(r: Record)
    ensures Outside([r], {}) == [r]
  {
    assert [r][..0] == [];
  }

  /** Nothing published yet is read back as nothing. */
  lemma NothingIsLoadable(c: Codec)
    ensures var empty := State(Directory, map[], NoIndex); Loadable(c, empty) && IndexedIds(c, empty) == {}
  {
    assert Ids(c, Entries(c, [])) == [];
  }

  /** Such a codec: of one record, its texts as they are, and their lengths. */
  function TextCodec(r: Record): Codec {
    Codec((q: Record) => q == r, (id: string) => id == r.id,
          (q: Record) => RecordText(q), (t: string) => if t == RecordText(r) then Some(r) else None,
          (e: IndexEntry) => "{" + e.id + "}", (t: string) => if t == "{" + r.id + "}" then Some(Projection(r)) else None,
          (t: string) => t == "", (t: string) => |t|)
  }

  lemma TextCodecIsFaithful(r: Record)
    ensures var c := TextCodec(r); c.Faithful() && c.valid(r) && c.encode(r) == RecordText(r) && c.size(RecordText(r)) >= |RecordText(r)|
  {
    hide RecordText;
  }
}
