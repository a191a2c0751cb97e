/** Migration 1.1.0: a cursor loop that rewrites the collection it is reading. The cursor is
    arbitrary: it may return documents in any order, more than once, and as they were when the
    migration began. */
module Migration {
  import opened Wrappers
  import opened Model
  import opened Documents
  import opened DataStores

  /** One `iter.Next`: the document at `pos`, with its present content or, when stale, as it was
      when the migration began. */
  datatype Visit = Visit(pos: nat, stale: bool)

  /** How `Up` ends: normally, at the failing upsert of visit `at`, or after the loop. */
  datatype Ending = Completes | UpsertFails(at: nat) | CloseFails | IndexFails

  /** A collection the migration is meant for: unique, non-empty ids. */
  ghost predicate Migratable(docs: seq<Doc>) {
    Indexed(docs) && forall i :: 0 <= i < |docs| ==> docs[i].id.value != ""
  }

  predicate InRange(visits: seq<Visit>, n: nat) {
    forall i :: 0 <= i < |visits| ==> visits[i].pos < n
  }

  /** `newdev`: the authentication set id is also the device id. */
  function Migrated(r: DeviceAuth): DeviceAuth {
    r.(deviceId := r.id)
  }

  ghost predicate Visited(visits: seq<Visit>, pos: nat) {
    exists i :: 0 <= i < |visits| && visits[i].pos == pos
  }

  ghost predicate VisitsAll(visits: seq<Visit>, n: nat) {
    forall pos: nat :: pos < n ==> Visited(visits, pos)
  }

  ghost predicate Covers(visits: seq<Visit>, n: nat) {
    InRange(visits, n) && VisitsAll(visits, n)
  }

  /** The collection a set of visits is to leave behind: visited records migrated, in their places. */
  ghost function MigratedAt(rs: seq<DeviceAuth>, visits: seq<Visit>): (out: seq<DeviceAuth>)
    ensures |out| == |rs|
  {
    seq(|rs|, i requires 0 <= i < |rs| => if Visited(visits, i) then Migrated(rs[i]) else rs[i])
  }

  /** The upsert of one iteration, by the content that was read. */
  function Rewrite(docs: seq<Doc>, olddev: DeviceAuth): seq<Doc> {
    UpsertReplace(docs, Marshal(olddev), Marshal(Migrated(olddev)))
  }

  /** The selector finds the document it was read from exactly when the copy carries no device id or
      the present one; with any other device id it finds nothing. */
  lemma SelectorFindsIff(docs: seq<Doc>, pos: nat, olddev: DeviceAuth)
    requires Migratable(docs) && pos < |docs| && olddev == Unmarshal(docs[pos]).(deviceId := olddev.deviceId)
    ensures FirstMatch(docs, Marshal(olddev)) ==
            if olddev.deviceId == "" || olddev.deviceId == Unmarshal(docs[pos]).deviceId then pos else |docs|
  {
    var sel := Marshal(olddev);
    assert docs[pos] in docs;
    forall j | 0 <= j < |docs| && j != pos ensures !Matches(sel, docs[j]) {
      assert docs[j].id != docs[pos].id;
    }
    QueryByExample(olddev, docs[pos]);
    if Matches(sel, docs[pos]) {
      FirstMatchUnique(docs, sel, pos);
    }
  }

  /** A device id that is neither missing nor what the migration sets. */
  predicate Foreign(d: Doc) {
    Text(d.deviceId) != "" && d.deviceId != d.id
  }

  /** Rewriting a document and then rewriting it again by its old content adds a second document
      exactly when its device id was foreign. */
  lemma RepeatInsertsIff(docs: seq<Doc>, pos: nat)
    requires Migratable(docs) && pos < |docs|
    ensures var olddev := Unmarshal(docs[pos]);
            var once := Rewrite(docs, olddev);
            && once == docs[pos := Marshal(Migrated(olddev))]
            && |Rewrite(once, olddev)| == (if Foreign(docs[pos]) then |docs| + 1 else |docs|)
  {
    var olddev := Unmarshal(docs[pos]);
    assert docs[pos] in docs;
    SelectorFindsIff(docs, pos, olddev);
    ReplaceKeepsMigratable(docs, pos, olddev);
    SelectorFindsIff(docs[pos := Marshal(Migrated(olddev))], pos, olddev);
  }

  /** Replacing a document by its migrated form migrates that record and no other. */
  lemma ReplaceKeepsMigratable(docs: seq<Doc>, pos: nat, olddev: DeviceAuth)
    requires Migratable(docs) && pos < |docs| && olddev == Unmarshal(docs[pos]).(deviceId := olddev.deviceId)
    ensures var out := docs[pos := Marshal(Migrated(olddev))];
            && Migratable(out) && (forall k :: 0 <= k < |docs| ==> out[k].id == docs[k].id)
            && Decode(out) == Decode(docs)[pos := Migrated(Decode(docs)[pos])]
            && Unmarshal(out[pos]) == Migrated(olddev)
  {
    assert docs[pos] in docs;
    ReplaceRefines(docs, pos, Marshal(Migrated(olddev)));
    RoundTrip(Migrated(olddev));
  }

  // ----- the loop ----------------------------------------------------------------------------

  /** What `iter.Next` decodes into `olddev`. */
  function Read(before: seq<Doc>, docs: seq<Doc>, v: Visit): DeviceAuth
    requires v.pos < |before| && v.pos < |docs|
  {
    Unmarshal(if v.stale then before[v.pos] else docs[v.pos])
  }

  /** Visit i returns the old content of a document that an earlier visit has rewritten, and that
      content carries a foreign device id. */
  ghost predicate Misses(before: seq<Doc>, visits: seq<Visit>, i: nat)
    requires InRange(visits, |before|)
  {
    i < |visits| && visits[i].stale && Foreign(before[visits[i].pos]) && Visited(visits[..i], visits[i].pos)
  }

  ghost predicate NoMiss(before: seq<Doc>, visits: seq<Visit>, n: nat)
    requires InRange(visits, |before|)
  {
    forall i: nat :: i < n ==> !Misses(before, visits, i)
  }

  predicate Clean(docs: seq<Doc>) {
    forall k :: 0 <= k < |docs| ==> !Foreign(docs[k])
  }

  /** No cursor can miss exactly when no document carries a foreign device id, as before 1.1.0 and
      after any interrupted run, none does. */
  lemma NoCursorMissesIff(docs: seq<Doc>)
    ensures Clean(docs) <==> forall visits | InRange(visits, |docs|) :: NoMiss(docs, visits, |visits|)
  {
    if !Clean(docs) {
      var k :| 0 <= k < |docs| && Foreign(docs[k]);
      var visits := [Visit(k, false), Visit(k, true)];
      assert visits[..1][0].pos == k;
      assert Misses(docs, visits, 1);
    }
  }

  /** The collection after some visits: the same documents in their places, the visited migrated. */
  ghost predicate Reached(before: seq<Doc>, docs: seq<Doc>, visits: seq<Visit>) {
    && Migratable(docs) && |docs| == |before|
    && (forall k :: 0 <= k < |before| ==> docs[k].id == before[k].id)
    && Decode(docs) == MigratedAt(Decode(before), visits)
  }

  /** For any collection with unique ids, with or without the index already in place, and any
      cursor: `Up` succeeds exactly when nothing fails from outside and no visit misses, and then the
      visited records are migrated in their places and nothing else changed. A miss is refused by
      the index, or adds a second document on which building the index fails afterwards. */
  method Up(ds: DataStore, visits: seq<Visit>, indexed: bool, ending: Ending) returns (err: Option<Error>)
    requires Migratable(ds.docs) && InRange(visits, |ds.docs|)
    modifies ds
    ensures ending.CloseFails? || ending.IndexFails? || (ending.UpsertFails? && ending.at < |visits|) ==> err.Some?
    ensures ending.Completes? || (ending.UpsertFails? && |visits| <= ending.at) ==>
              (err.None? <==> NoMiss(old(ds.docs), visits, |visits|))
    ensures err.None? ==> Reached(old(ds.docs), ds.docs, visits)
    ensures err.None? && VisitsAll(visits, |old(ds.docs)|) ==>
              AsStore(ds.docs) == map id | id in AsStore(old(ds.docs)) :: AsStore(old(ds.docs))[id].(deviceId := id)
    ensures NoMiss(old(ds.docs), visits, |visits|) ==>
              Reached(old(ds.docs), ds.docs, if ending.UpsertFails? && ending.at < |visits| then visits[..ending.at] else visits)
    ensures indexed ==> exists n :: 0 <= n <= |visits| && Reached(old(ds.docs), ds.docs, visits[..n])
    ensures !indexed ==> (UniqueIds(ds.docs) <==> NoMiss(old(ds.docs), visits, if ending.UpsertFails? && ending.at < |visits| then ending.at else |visits|))
  {
    ghost var before := ds.docs;
    ghost var n;
    err, n := UpsertVisits(ds, visits, indexed, ending);
    if err.Some? {
      return;
    }
    assert visits[..n] == visits;
    if ending.CloseFails? {
      return Wrap(Some(Failure("cursor failed")), "failed to close DB iterator");
    }
    if ending.IndexFails? || !UniqueIds(ds.docs) {
      return Wrap(Some(Failure("index failed")), "database indexing failed");
    }
    if VisitsAll(visits, |before|) {
      MigratedStore(before, ds.docs, visits);
    }
    err := None;
  }

  /** The loop: it ends after all visits, or with an error at visit n, which fails from outside or
      is a miss that the index refuses. */
  method UpsertVisits(ds: DataStore, visits: seq<Visit>, indexed: bool, ending: Ending) returns (err: Option<Error>, ghost n: nat)
    requires Migratable(ds.docs) && InRange(visits, |ds.docs|)
    modifies ds
    ensures Going(old(ds.docs), ds.docs, visits, indexed, n) && (ending.UpsertFails? ==> n <= ending.at || |visits| <= ending.at)
    ensures err.None? ==> n == |visits|
    ensures err.Some? ==> (ending == UpsertFails(n) && n < |visits|) || (indexed && Misses(old(ds.docs), visits, n))
  {
    var before := ds.docs;
    var i := 0;
    Begins(before, visits, indexed);
    err := None;
    while i < |visits|
      invariant err.None? && 0 <= i <= |visits| && (ending.UpsertFails? ==> i <= ending.at || |visits| <= ending.at)
      invariant Going(before, ds.docs, visits, indexed, i)
    {
      if ending == UpsertFails(i) {
        err := Wrap(Some(Failure("upsert failed")), "failed to insert auth set for device");
        break;
      }
      err := RewriteOne(ds, before, visits, i, visits[i], indexed);
      if err.Some? {
        break;
      }
      i := i + 1;
    }
    n := i;
  }

  /** The documents there were keep their places and their ids. */
  ghost predicate SameIds(before: seq<Doc>, docs: seq<Doc>) {
    |before| <= |docs| && forall k :: 0 <= k < |before| ==> docs[k].id == before[k].id
  }

  /** After i visits: without a miss the visited records are migrated and nothing else changed; after
      a miss, which an index would have refused, some id is repeated. */
  ghost predicate Going(before: seq<Doc>, docs: seq<Doc>, visits: seq<Visit>, indexed: bool, i: nat) {
    && InRange(visits, |before|) && i <= |visits| && SameIds(before, docs)
    && if NoMiss(before, visits, i) then Reached(before, docs, visits[..i]) else !indexed && !UniqueIds(docs)
  }

  lemma Begins(before: seq<Doc>, visits: seq<Visit>, indexed: bool)
    requires Migratable(before) && InRange(visits, |before|)
    ensures Going(before, before, visits, indexed, 0)
  {
    assert MigratedAt(Decode(before), visits[..0]) == Decode(before);
  }

  lemma GoesOn(before: seq<Doc>, docs: seq<Doc>, visits: seq<Visit>, indexed: bool, i: nat)
    requires Migratable(before) && Going(before, docs, visits, indexed, i) && i < |visits|
    ensures var olddev := Read(before, docs, visits[i]);
            if indexed && Refused(docs, olddev) then Misses(before, visits, i)
            else Going(before, Rewrite(docs, olddev), visits, indexed, i + 1)
  {
    NextVisit(before, docs, visits, i);
  }

  /** A unique index refuses the insertion of an id that is there. */
  predicate Refused(docs: seq<Doc>, olddev: DeviceAuth) {
    FirstMatch(docs, Marshal(olddev)) == |docs| && FirstMatch(docs, ById(olddev.id)) < |docs|
  }

  /** The loop's body: decode what the cursor returns, set the device id, upsert by the old content. */
  method RewriteOne(ds: DataStore, before: seq<Doc>, ghost visits: seq<Visit>, ghost i: nat, v: Visit, indexed: bool)
    returns (err: Option<Error>)
    requires Migratable(before) && i < |visits| && v == visits[i] && Going(before, ds.docs, visits, indexed, i)
    modifies ds
    ensures err.None? ==> Going(before, ds.docs, visits, indexed, i + 1)
    ensures err.Some? ==> ds.docs == old(ds.docs) && indexed && Misses(before, visits, i)
  {
    GoesOn(before, ds.docs, visits, indexed, i);
    var olddev := Read(before, ds.docs, v);
    var newdev := olddev;
    newdev := newdev.(deviceId := newdev.id);
    if indexed && Refused(ds.docs, olddev) {
      return Wrap(Some(Failure("duplicate key")), "failed to insert auth set for device");
    }
    ds.docs := UpsertReplace(ds.docs, Marshal(olddev), Marshal(newdev));
    err := None;
  }

  /** One iteration: without a miss it migrates the visited record in place; the first miss adds a
      second document for an id, unless refused, and from then on ids stay repeated. */
  lemma NextVisit(before: seq<Doc>, docs: seq<Doc>, visits: seq<Visit>, i: nat)
    requires Migratable(before) && InRange(visits, |before|) && i < |visits| && SameIds(before, docs)
    requires NoMiss(before, visits, i) ==> Reached(before, docs, visits[..i])
    requires !NoMiss(before, visits, i) ==> !UniqueIds(docs)
    ensures var olddev := Read(before, docs, visits[i]);
            var out := Rewrite(docs, olddev);
            && SameIds(before, out)
            && (NoMiss(before, visits, i + 1) ==> Reached(before, out, visits[..i + 1]))
            && (!NoMiss(before, visits, i + 1) ==> !UniqueIds(out))
            && (NoMiss(before, visits, i) ==> (Refused(docs, olddev) <==> Misses(before, visits, i)))
  {
    var pos, olddev := visits[i].pos, Read(before, docs, visits[i]);
    assert before[pos] in before;
    RewriteKeepsIds(docs, olddev);
    if NoMiss(before, visits, i) {
      VisitFinds(before, docs, visits, i);
    }
  }

  /** An upsert by content with a non-empty id keeps every place's id, and so every repetition. */
  lemma RewriteKeepsIds(docs: seq<Doc>, olddev: DeviceAuth)
    requires olddev.id != ""
    ensures var out := Rewrite(docs, olddev); SameIds(docs, out) && (!UniqueIds(docs) ==> !UniqueIds(out))
  {
    var out := Rewrite(docs, olddev);
    if i, j :| 0 <= i < j < |docs| && docs[i].id == docs[j].id {
      assert out[i].id == out[j].id;
    }
  }

  lemma VisitFinds(before: seq<Doc>, docs: seq<Doc>, visits: seq<Visit>, i: nat)
    requires Migratable(before) && InRange(visits, |before|) && i < |visits| && Reached(before, docs, visits[..i])
    ensures var olddev := Read(before, docs, visits[i]);
            var out := Rewrite(docs, olddev);
            && (!Misses(before, visits, i) ==> Reached(before, out, visits[..i + 1]) && !Refused(docs, olddev))
            && (Misses(before, visits, i) ==> !UniqueIds(out) && Refused(docs, olddev))
  {
    var pos, olddev := visits[i].pos, Read(before, docs, visits[i]);
    var out := Rewrite(docs, olddev);
    assert before[pos] in before && docs[pos] in docs;
    assert Decode(docs)[pos] == MigratedAt(Decode(before), visits[..i])[pos];
    SelectorFindsIff(docs, pos, olddev);
    if Misses(before, visits, i) {
      assert out[|docs|].id == out[pos].id;
      LookupRefines(docs, olddev.id);
      AsStoreAt(docs, pos);
    } else {
      ReplaceKeepsMigratable(docs, pos, olddev);
      ExtendVisits(Decode(before), visits, i);
    }
  }

  /** One more visit migrates one more place, or the same place again. */
  lemma ExtendVisits(rs: seq<DeviceAuth>, visits: seq<Visit>, i: nat)
    requires i < |visits| && InRange(visits, |rs|)
    ensures var pos := visits[i].pos;
            var done := MigratedAt(rs, visits[..i]);
            MigratedAt(rs, visits[..i + 1]) == done[pos := Migrated(done[pos])]
  {
    var pos := visits[i].pos;
    assert visits[..i + 1][i].pos == pos;
    forall p: nat | p < |rs|
      ensures Visited(visits[..i + 1], p) <==> Visited(visits[..i], p) || p == pos
    {
      if Visited(visits[..i], p) {
        var k :| 0 <= k < i && visits[..i][k].pos == p;
        assert visits[..i + 1][k].pos == p;
      }
      if Visited(visits[..i + 1], p) && p != pos {
        var k :| 0 <= k < i + 1 && visits[..i + 1][k].pos == p;
        assert visits[..i][k].pos == p;
      }
    }
  }

  /** A run after an interrupted run is one run over both lists of visits. */
  lemma RestartComposes(rs: seq<DeviceAuth>, first: seq<Visit>, second: seq<Visit>)
    ensures MigratedAt(MigratedAt(rs, first), second) == MigratedAt(rs, first + second)
  {
    forall p: nat | p < |rs|
      ensures Visited(first + second, p) <==> Visited(first, p) || Visited(second, p)
    {
      if Visited(first, p) {
        var k :| 0 <= k < |first| && first[k].pos == p;
        assert (first + second)[k].pos == p;
      }
      if Visited(second, p) {
        var k :| 0 <= k < |second| && second[k].pos == p;
        assert (first + second)[|first| + k].pos == p;
      }
    }
  }

  /** An interrupted run leaves a collection on which, again, no cursor can miss. */
  lemma StaysClean(before: seq<Doc>, docs: seq<Doc>, visits: seq<Visit>)
    requires Migratable(before) && Clean(before) && Reached(before, docs, visits)
    ensures Clean(docs)
  {
    forall k | 0 <= k < |docs| ensures !Foreign(docs[k]) {
      assert docs[k] in docs && before[k] in before;
      assert Decode(docs)[k] == MigratedAt(Decode(before), visits)[k];
    }
  }

  /** Confluence and restart: whatever was visited before, and however a complete cursor orders,
      repeats and delays its documents, the outcome is the same: as many records, in their places,
      each with its id as device id and every other field as it was. */
  lemma Confluent(rs: seq<DeviceAuth>, partial: seq<Visit>, visits: seq<Visit>)
    requires Covers(visits, |rs|)
    ensures var out := MigratedAt(MigratedAt(rs, partial), visits);
            && |out| == |rs|
            && forall i :: 0 <= i < |rs| ==> out[i] == rs[i].(deviceId := rs[i].id)
    ensures MigratedAt(MigratedAt(rs, visits), partial) == MigratedAt(rs, visits)
  {
    RestartComposes(rs, partial, visits);
    forall p: nat | p < |rs| ensures Visited(partial + visits, p) {
      assert Visited(visits, p);
      var k :| 0 <= k < |visits| && visits[k].pos == p;
      assert (partial + visits)[|partial| + k].pos == p;
    }
  }

  /** End to end: after any interrupted run, a complete one leaves each of the original records with
      its id as device id and nothing else changed. */
  lemma RestartMigratesStore(before: seq<Doc>, mid: seq<Doc>, out: seq<Doc>, partial: seq<Visit>, visits: seq<Visit>)
    requires Migratable(before) && Reached(before, mid, partial) && Reached(mid, out, visits) && Covers(visits, |mid|)
    ensures AsStore(out) == map id | id in AsStore(before) :: AsStore(before)[id].(deviceId := id)
  {
    Confluent(Decode(before), partial, visits);
    RestartComposes(Decode(before), partial, visits);
    assert Reached(before, out, partial + visits);
    forall p: nat | p < |before| ensures Visited(partial + visits, p) {
      assert Visited(visits, p);
      var k :| 0 <= k < |visits| && visits[k].pos == p;
      assert (partial + visits)[|partial| + k].pos == p;
    }
    MigratedStore(before, out, partial + visits);
  }

  /** Seen as a map, a complete migration sets each record's device id to its id and does no more. */
  lemma MigratedStore(docs: seq<Doc>, out: seq<Doc>, visits: seq<Visit>)
    requires Migratable(docs) && Reached(docs, out, visits) && VisitsAll(visits, |docs|)
    ensures AsStore(out) == map id | id in AsStore(docs) :: AsStore(docs)[id].(deviceId := id)
  {
    var s := map id | id in AsStore(docs) :: AsStore(docs)[id].(deviceId := id);
    forall i | 0 <= i < |out| ensures out[i].id.value in s && s[out[i].id.value] == Unmarshal(out[i]) {
      assert Visited(visits, i);
      assert Decode(out)[i] == Migrated(Decode(docs)[i]);
      AsStoreAt(docs, i);
    }
    forall id | id in s ensures exists i :: 0 <= i < |out| && out[i].id == Some(id) {
      var d :| d in docs && d.id.value == id;
      var i :| 0 <= i < |docs| && docs[i] == d;
      assert out[i].id == Some(id);
    }
    SameStore(out, s);
  }
}
