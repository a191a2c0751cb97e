/** `DataStoreMongo`: the store as a document collection that its methods change in place, and
    the proof that it is a map from authentication set id to record. */
module DataStores {
  import opened Wrappers
  import opened Model
  import opened Documents
  import opened Records
  import opened Ordering

  // ----- the collection as a map -------------------------------------------------------------

  /** What the unique index and the store's own writes guarantee: every document has an id and no
      two share one. */
  ghost predicate Indexed(docs: seq<Doc>) {
    UniqueIds(docs) && forall d :: d in docs ==> d.id.Some?
  }

  ghost function AsStore(docs: seq<Doc>): (s: Store)
    requires Indexed(docs)
  {
    map d | d in docs :: d.id.value := Unmarshal(d)
  }

  lemma AsStoreAt(docs: seq<Doc>, k: nat)
    requires Indexed(docs) && k < |docs|
    ensures docs[k].id.value in AsStore(docs)
    ensures AsStore(docs)[docs[k].id.value] == Unmarshal(docs[k])
  {
    assert docs[k] in docs;
  }

  /** Looking an id up by selector finds the map's record or misses exactly as the map does. */
  lemma LookupRefines(docs: seq<Doc>, id: string)
    requires Indexed(docs)
    ensures var k := FirstMatch(docs, ById(id));
            && (k < |docs| <==> id in AsStore(docs))
            && (k < |docs| ==> AsStore(docs)[id] == Unmarshal(docs[k]) && docs[k].id == Some(id))
  {
    var k := FirstMatch(docs, ById(id));
    if k < |docs| {
      AsStoreAt(docs, k);
    }
    if id in AsStore(docs) {
      var d :| d in docs && d.id.value == id;
      assert Matches(ById(id), d);
    }
  }

  lemma ReplaceRefines(docs: seq<Doc>, k: nat, d: Doc)
    requires Indexed(docs) && k < |docs| && d.id == docs[k].id
    ensures Indexed(docs[k := d])
    ensures AsStore(docs[k := d]) == AsStore(docs)[d.id.value := Unmarshal(d)]
  {
    var out := docs[k := d];
    forall e | e in out ensures e.id.Some? {
      var i :| 0 <= i < |out| && out[i] == e;
      assert e == d || docs[i] in docs;
    }
    SameStore(out, AsStore(docs)[d.id.value := Unmarshal(d)]) by {
      forall i | 0 <= i < |out|
        ensures AsStore(docs)[d.id.value := Unmarshal(d)][out[i].id.value] == Unmarshal(out[i])
      {
        AsStoreAt(docs, i);
      }
      forall id | id in AsStore(docs)[d.id.value := Unmarshal(d)]
        ensures exists i :: 0 <= i < |out| && out[i].id == Some(id)
      {
        if id == d.id.value {
          assert out[k].id == Some(id);
        } else {
          var e :| e in docs && e.id.value == id;
          var i :| 0 <= i < |docs| && docs[i] == e;
          assert out[i].id == Some(id);
        }
      }
    }
  }

  /** A map is the collection's map when it covers the same ids with the same records. */
  lemma SameStore(docs: seq<Doc>, s: Store)
    requires Indexed(docs)
    requires forall i :: 0 <= i < |docs| ==> docs[i].id.value in s && s[docs[i].id.value] == Unmarshal(docs[i])
    requires forall id :: id in s ==> exists i :: 0 <= i < |docs| && docs[i].id == Some(id)
    ensures AsStore(docs) == s
  {
    forall id | id in s ensures id in AsStore(docs) {
      var i :| 0 <= i < |docs| && docs[i].id == Some(id);
      AsStoreAt(docs, i);
    }
    forall id | id in AsStore(docs) ensures id in s && AsStore(docs)[id] == s[id] {
      var d :| d in docs && d.id.value == id;
      var i :| 0 <= i < |docs| && docs[i] == d;
    }
  }

  lemma AppendRefines(docs: seq<Doc>, d: Doc)
    requires Indexed(docs) && d.id.Some? && d.id.value !in AsStore(docs)
    ensures Indexed(docs + [d])
    ensures AsStore(docs + [d]) == AsStore(docs)[d.id.value := Unmarshal(d)]
  {
    forall i | 0 <= i < |docs| ensures docs[i].id != d.id {
      AsStoreAt(docs, i);
    }
    var out := docs + [d];
    forall i | 0 <= i < |docs| ensures out[i].id.value in AsStore(docs) && AsStore(docs)[out[i].id.value] == Unmarshal(out[i]) {
      AsStoreAt(docs, i);
    }
    forall id | id in AsStore(docs)[d.id.value := Unmarshal(d)]
      ensures exists i :: 0 <= i < |out| && out[i].id == Some(id)
    {
      if id == d.id.value {
        assert out[|docs|].id == Some(id);
      } else {
        var e :| e in docs && e.id.value == id;
        var i :| 0 <= i < |docs| && docs[i] == e;
        assert out[i].id == Some(id);
      }
    }
    SameStore(out, AsStore(docs)[d.id.value := Unmarshal(d)]);
  }

  /** `Upsert({"id": id}, {"$set": ...})` is `Put` on the map. */
  lemma PutRefines(docs: seq<Doc>, dev: DeviceAuth)
    requires Indexed(docs)
    ensures var out := UpsertSet(docs, ById(dev.id), Marshal(dev.(id := "")));
            Indexed(out) && AsStore(out) == Put(AsStore(docs), dev)
  {
    var k := FirstMatch(docs, ById(dev.id));
    LookupRefines(docs, dev.id);
    if k < |docs| {
      ReplaceRefines(docs, k, SetFields(docs[k], Marshal(dev.(id := ""))));
    } else {
      AppendRefines(docs, SetFields(ById(dev.id), Marshal(dev.(id := ""))));
    }
  }

  lemma UpdateRefines(docs: seq<Doc>, dev: DeviceAuth)
    requires Indexed(docs)
    ensures var out := UpdateSet(docs, ById(dev.id), Marshal(dev.(id := "")));
            Indexed(out) && AsStore(out) == Update(AsStore(docs), dev)
  {
    LookupRefines(docs, dev.id);
    PutRefines(docs, dev);
    UpdateIsGuardedPut(AsStore(docs), dev);
  }

  /** Removing position k keeps the index and takes exactly that document away. */
  lemma RemoveIndexed(docs: seq<Doc>, k: nat)
    requires Indexed(docs) && k < |docs|
    ensures var out := docs[..k] + docs[k + 1..];
            Indexed(out) && forall d :: d in out <==> d in docs && d.id != docs[k].id
  {
    var out := docs[..k] + docs[k + 1..];
    assert forall i :: 0 <= i < |out| ==> out[i] == docs[if i < k then i else i + 1];
    forall i | 0 <= i < |docs| && i != k ensures docs[i] in out {
      assert out[if i < k then i else i - 1] == docs[i];
    }
  }

  /** The collection's map follows the collection when one id's document is taken away. */
  lemma SubStore(docs: seq<Doc>, out: seq<Doc>, s: Store, id: string)
    requires Indexed(docs) && Indexed(out) && s == Delete(AsStore(docs), id)
    requires forall d :: d in out <==> d in docs && d.id != Some(id)
    ensures AsStore(out) == s
  {
    forall x | x in AsStore(out) ensures x in s && AsStore(out)[x] == s[x] {
      var d :| d in out && d.id.value == x;
      assert d in docs;
    }
    forall x | x in s ensures x in AsStore(out) {
      var d :| d in docs && d.id.value == x;
      assert d in out;
    }
  }

  lemma DeleteRefines(docs: seq<Doc>, id: string)
    requires Indexed(docs)
    ensures var out := RemoveFirst(docs, ById(id));
            Indexed(out) && AsStore(out) == Delete(AsStore(docs), id)
  {
    var k := FirstMatch(docs, ById(id));
    LookupRefines(docs, id);
    if k < |docs| {
      RemoveIndexed(docs, k);
      SubStore(docs, docs[..k] + docs[k + 1..], Delete(AsStore(docs), id), id);
    }
  }

  lemma DeleteByDeviceRefines(docs: seq<Doc>, deviceId: string, spared: set<string>)
    requires Indexed(docs)
    ensures var out := Without(docs, Marshal(ZERO.(deviceId := deviceId)), spared);
            Indexed(out) && AsStore(out) == DeleteByDevice(AsStore(docs), deviceId, spared)
  {
    var sel := Marshal(ZERO.(deviceId := deviceId));
    var out := Without(docs, sel, spared);
    WithoutUnique(docs, sel, spared);
    forall i | 0 <= i < |out|
      ensures out[i].id.value in DeleteByDevice(AsStore(docs), deviceId, spared)
      ensures AsStore(docs)[out[i].id.value] == Unmarshal(out[i])
    {
      assert out[i] in docs;
      QueryByExample(ZERO.(deviceId := deviceId), out[i]);
    }
    forall id | id in DeleteByDevice(AsStore(docs), deviceId, spared)
      ensures exists i :: 0 <= i < |out| && out[i].id == Some(id)
    {
      var d :| d in docs && d.id.value == id;
      QueryByExample(ZERO.(deviceId := deviceId), d);
      assert d in out;
    }
    SameStore(out, DeleteByDevice(AsStore(docs), deviceId, spared));
  }

  // ----- listing -----------------------------------------------------------------------------

  function Decode(docs: seq<Doc>): (rs: seq<DeviceAuth>)
    ensures |rs| == |docs| && forall i :: 0 <= i < |docs| ==> rs[i] == Unmarshal(docs[i])
  {
    seq(|docs|, i requires 0 <= i < |docs| => Unmarshal(docs[i]))
  }

  /** The example record that `GetDeviceAuths` builds from its filter. */
  function FilterExample(f: Filter): DeviceAuth {
    ZERO.(status := f.status, deviceId := f.deviceId)
  }

  function Listing(docs: seq<Doc>, f: Filter): seq<DeviceAuth> {
    SortById(Decode(Find(docs, Marshal(FilterExample(f)))))
  }

  /** `Skip(skip).Limit(limit)`; a zero limit is no limit. */
  function Window(rs: seq<DeviceAuth>, skip: nat, limit: nat): seq<DeviceAuth> {
    if |rs| <= skip then []
    else if limit == 0 || |rs| <= skip + limit then rs[skip..]
    else rs[skip..skip + limit]
  }

  /** Conversion to a 32-bit two's complement integer, as the driver does to a skip count. */
  function Int32(n: int): (r: int)
    ensures -0x8000_0000 <= r < 0x8000_0000 && (n - r) % 0x1_0000_0000 == 0
  {
    (n + 0x8000_0000) % 0x1_0000_0000 - 0x8000_0000
  }

  lemma {:induction false} FindUnique(docs: seq<Doc>, sel: Doc)
    requires Indexed(docs)
    ensures Indexed(Find(docs, sel))
  {
    if docs != [] {
      assert docs[0] in docs;
      forall d | d in docs[1..] ensures d.id.Some? {
        assert d in docs;
      }
      FindUnique(docs[1..], sel);
      var rest := Find(docs[1..], sel);
      forall i | 0 <= i < |rest| ensures docs[0].id != rest[i].id {
        assert rest[i] in docs[1..];
      }
    }
  }

  /** The listing holds exactly the map's records that pass the filter, in strictly increasing
      order of id, so each of them once. */
  lemma ListingExact(docs: seq<Doc>, f: Filter)
    requires Indexed(docs)
    ensures Increasing(Listing(docs, f))
    ensures forall r :: r in Listing(docs, f) <==>
                        exists id :: id in AsStore(docs) && AsStore(docs)[id] == r && FilterHolds(f, r)
  {
    var found := Find(docs, Marshal(FilterExample(f)));
    var rs := Decode(found);
    FindUnique(docs, Marshal(FilterExample(f)));
    forall i | 0 <= i < |found| ensures rs[i].id == found[i].id.value {
      assert found[i] in found;
    }
    SortIncreasing(rs);
    FoundExact(docs, f);
  }

  lemma FoundExact(docs: seq<Doc>, f: Filter)
    requires Indexed(docs)
    ensures forall r :: r in Decode(Find(docs, Marshal(FilterExample(f)))) <==>
                        exists id :: id in AsStore(docs) && AsStore(docs)[id] == r && FilterHolds(f, r)
  {
    var found := Find(docs, Marshal(FilterExample(f)));
    var rs := Decode(found);
    forall r | r in rs
      ensures exists id :: id in AsStore(docs) && AsStore(docs)[id] == r && FilterHolds(f, r)
    {
      var i :| 0 <= i < |rs| && rs[i] == r;
      assert found[i] in found;
      QueryByExample(FilterExample(f), found[i]);
      assert AsStore(docs)[found[i].id.value] == r;
    }
    forall id | id in AsStore(docs) && FilterHolds(f, AsStore(docs)[id]) ensures AsStore(docs)[id] in rs {
      var d :| d in docs && d.id.value == id;
      QueryByExample(FilterExample(f), d);
      assert d in found;
      var i :| 0 <= i < |found| && found[i] == d;
      assert rs[i] == Unmarshal(d);
    }
  }

  /** The listing is a function of the map: the order of the documents does not matter. */
  lemma ListingDetermined(docs: seq<Doc>, other: seq<Doc>, f: Filter)
    requires Indexed(docs) && Indexed(other) && AsStore(docs) == AsStore(other)
    ensures Listing(docs, f) == Listing(other, f)
  {
    ListingExact(docs, f);
    ListingExact(other, f);
    IncreasingUnique(Listing(docs, f), Listing(other, f));
  }

  // ----- the class ---------------------------------------------------------------------------

  /** A record its holder passes on to be filled, `*model.DeviceAuth`. */
  class DeviceAuthRef {
    var value: DeviceAuth

    constructor (value: DeviceAuth)
      ensures this.value == value
    {
      this.value := value;
    }
  }

  class DataStore {
    var docs: seq<Doc>

    ghost predicate Valid()
      reads this
    {
      Indexed(docs)
    }

    ghost function View(): Store
      reads this
      requires Valid()
    {
      AsStore(docs)
    }

    constructor ()
      ensures Valid() && View() == map[]
    {
      docs := [];
    }

    method GetDeviceAuths(skip: int, limit: nat, filter: Filter, fault: Fault)
      returns (res: seq<DeviceAuth>, err: Option<Error>)
      requires limit < 0x8000_0000
      ensures err.None? <==> fault.Fine? && 0 <= Int32(skip)
      ensures err.None? ==> res == Window(Listing(docs, filter), Int32(skip), limit)
      ensures err.Some? ==> res == [] && err.value.Wrapped?
    {
      var dbFilter := ZERO;
      if filter.status != "" {
        dbFilter := dbFilter.(status := filter.status);
      }
      if filter.deviceId != "" {
        dbFilter := dbFilter.(deviceId := filter.deviceId);
      }
      if !fault.Fine? || Int32(skip) < 0 {
        return [], Wrap(Some(Failure("query failed")), "failed to fetch device list");
      }
      res := Window(SortById(Decode(Find(docs, Marshal(dbFilter)))), Int32(skip), limit);
      err := None;
    }

    method GetDeviceAuth(id: string, fault: Fault) returns (dev: DeviceAuth, err: Option<Error>)
      requires Valid()
      ensures err.None? <==> fault.Fine? && id in View()
      ensures err.None? ==> dev == View()[id]
      ensures err == Some(ErrNotFound) <==> fault.Fine? && id !in View()
      ensures err.Some? && err.value != ErrNotFound ==> err.value.Wrapped?
    {
      dev := ZERO;
      if !fault.Fine? {
        return dev, Wrap(Some(Failure("query failed")), "failed to fetch device");
      }
      LookupRefines(docs, id);
      var k := FirstMatch(docs, ById(id));
      if k == |docs| {
        return dev, Some(ErrNotFound);
      }
      return Unmarshal(docs[k]), None;
    }

    method DeleteDeviceAuth(id: string, fault: Fault) returns (err: Option<Error>)
      requires Valid()
      modifies this
      ensures Valid()
      ensures View() == if fault.FailedBefore? then old(View()) else Delete(old(View()), id)
      ensures err.None? <==> fault.Fine? && id in old(View())
      ensures err == Some(ErrNotFound) <==> fault.Fine? && id !in old(View())
      ensures err.Some? && err.value != ErrNotFound ==> err.value.Wrapped?
    {
      if fault.FailedBefore? {
        return Wrap(Some(Failure("remove failed")), "failed to delete device");
      }
      DeleteRefines(docs, id);
      LookupRefines(docs, id);
      var found := FirstMatch(docs, ById(id)) < |docs|;
      docs := RemoveFirst(docs, ById(id));
      if fault.FailedAfter? {
        return Wrap(Some(Failure("remove failed")), "failed to delete device");
      }
      err := if found then None else Some(ErrNotFound);
    }

    /** An empty device id is an example that every record matches. A removal that fails after it
        has begun spares some of the matching records; a failure is not reported. */
    method DeleteDeviceAuthByDevice(deviceId: string, fault: Fault, spared: set<string>) returns (err: Option<Error>)
      requires Valid()
      modifies this
      ensures Valid()
      ensures docs == if fault.FailedBefore? then old(docs)
                      else Without(old(docs), Marshal(ZERO.(deviceId := deviceId)), if fault.Fine? then {} else spared)
      ensures View() == if fault.FailedBefore? then old(View())
                        else DeleteByDevice(old(View()), deviceId, if fault.Fine? then {} else spared)
      ensures fault.Fine? && deviceId == "" ==> View() == map[]
      ensures err == if fault.Fine? && View() == old(View()) then Some(ErrNotFound) else None
    {
      if fault.FailedBefore? {
        return None;
      }
      var filter := ZERO.(deviceId := deviceId);
      var removed := |Find(docs, Marshal(filter))|;
      var missed := if fault.Fine? then {} else spared;
      DeleteByDeviceRefines(docs, deviceId, missed);
      if fault.Fine? {
        RemovedNothing(docs, Marshal(filter));
      }
      docs := Without(docs, Marshal(filter), missed);
      err := if fault.Fine? && removed == 0 then Some(ErrNotFound) else None;
    }

    /** The `$set` fields: every non-empty field but the id. */
    static method GenDeviceAuthUpdate(dev: DeviceAuth) returns (updev: DeviceAuth)
      ensures updev == dev.(id := "")
    {
      updev := ZERO;
      if dev.deviceId != "" {
        updev := updev.(deviceId := dev.deviceId);
      }
      if dev.status != "" {
        updev := updev.(status := dev.status);
      }
      if dev.key != "" {
        updev := updev.(key := dev.key);
      }
      if dev.deviceIdentity != "" {
        updev := updev.(deviceIdentity := dev.deviceIdentity);
      }
      if |dev.attributes| != 0 {
        updev := updev.(attributes := dev.attributes);
      }
      if dev.requestTime != None {
        updev := updev.(requestTime := dev.requestTime);
      }
    }

    method PutDeviceAuth(dev: DeviceAuth, fault: Fault) returns (err: Option<Error>)
      requires Valid()
      modifies this
      ensures Valid()
      ensures View() == if fault.FailedBefore? then old(View()) else Put(old(View()), dev)
      ensures err.None? <==> fault.Fine?
      ensures err.Some? ==> if fault == FailedBefore(true) then err.value.Failure? else err.value.Wrapped?
    {
      if fault == FailedBefore(true) {
        return Some(Failure("index failed"));
      }
      if fault.FailedBefore? {
        return Wrap(Some(Failure("upsert failed")), "failed to store device");
      }
      var data := GenDeviceAuthUpdate(dev);
      PutRefines(docs, dev);
      docs := UpsertSet(docs, ById(dev.id), Marshal(data));
      err := if fault.Fine? then None else Wrap(Some(Failure("upsert failed")), "failed to store device");
    }

    method UpdateDeviceAuth(dev: DeviceAuth, fault: Fault) returns (err: Option<Error>)
      requires Valid()
      modifies this
      ensures Valid()
      ensures View() == if fault.FailedBefore? then old(View()) else Update(old(View()), dev)
      ensures err.None? <==> fault.Fine? && dev.id in old(View())
      ensures err == Some(ErrNotFound) <==> fault.Fine? && dev.id !in old(View())
      ensures err.Some? && err.value != ErrNotFound ==>
                if fault == FailedBefore(true) then err.value.Failure? else err.value.Wrapped?
    {
      if fault == FailedBefore(true) {
        return Some(Failure("index failed"));
      }
      if fault.FailedBefore? {
        return Wrap(Some(Failure("update failed")), "failed to update auth set");
      }
      var data := GenDeviceAuthUpdate(dev);
      UpdateRefines(docs, dev);
      LookupRefines(docs, dev.id);
      var found := FirstMatch(docs, ById(dev.id)) < |docs|;
      docs := UpdateSet(docs, ById(dev.id), Marshal(data));
      if fault.FailedAfter? {
        return Wrap(Some(Failure("update failed")), "failed to update auth set");
      }
      err := if found then None else Some(ErrNotFound);
    }

    /** `id` and `deviceId` are the two object ids the driver generates. They are written into the
        argument before anything else, so also when the insertion fails. */
    method InsertDeviceAuth(dev: DeviceAuthRef, id: string, deviceId: string, fault: Fault) returns (err: Option<Error>)
      requires Valid()
      requires IsObjectIdHex(id) && IsObjectIdHex(deviceId)
      modifies this, dev
      ensures Valid()
      ensures dev.value == old(dev.value).(id := id, deviceId := deviceId)
      ensures View() == if fault.FailedBefore? then old(View()) else Insert(old(View()), dev.value)
      ensures err.None? <==> fault.Fine? && id !in old(View())
      ensures err.Some? ==> if fault == FailedBefore(true) then err.value.Failure? else err.value.Wrapped?
    {
      dev.value := dev.value.(id := id);
      dev.value := dev.value.(deviceId := deviceId);
      if fault == FailedBefore(true) {
        return Some(Failure("index failed"));
      }
      if fault.FailedBefore? {
        return Wrap(Some(Failure("insert failed")), "failed to insert device");
      }
      LookupRefines(docs, id);
      if FirstMatch(docs, ById(id)) < |docs| {
        return Wrap(Some(Failure("duplicate key")), "failed to insert device");
      }
      AppendRefines(docs, Marshal(dev.value));
      RoundTrip(dev.value);
      docs := docs + [Marshal(dev.value)];
      err := if fault.Fine? then None else Wrap(Some(Failure("insert failed")), "failed to insert device");
    }

    method GetDeviceAuthsByIdentityData(idata: string, fault: Fault)
      returns (res: seq<DeviceAuth>, err: Option<Error>)
      requires Valid()
      ensures err.None? <==> fault.Fine?
      ensures err.Some? ==> err.value.Wrapped?
      ensures err.None? ==> forall r :: r in res <==>
                HasIdentity(View(), r, idata)
    {
      if !fault.Fine? {
        return [], Wrap(Some(Failure("query failed")), "failed to fetch device");
      }
      var filter := ZERO.(deviceIdentity := idata);
      var found := Find(docs, Marshal(filter));
      res := Decode(found);
      err := None;
      IdentityQueryExact(docs, idata);
    }
  }

  /** r is a stored record with the given identity data; empty identity data means any. */
  ghost predicate HasIdentity(s: Store, r: DeviceAuth, idata: string) {
    exists id :: id in s && s[id] == r && (idata == "" || r.deviceIdentity == idata)
  }

  lemma IdentityQueryExact(docs: seq<Doc>, idata: string)
    requires Indexed(docs)
    ensures forall r :: r in Decode(Find(docs, Marshal(ZERO.(deviceIdentity := idata)))) <==>
              HasIdentity(AsStore(docs), r, idata)
  {
    var found := Find(docs, Marshal(ZERO.(deviceIdentity := idata)));
    var res := Decode(found);
    forall r | r in res
      ensures HasIdentity(AsStore(docs), r, idata)
    {
      var i :| 0 <= i < |res| && res[i] == r;
      assert found[i] in found;
      QueryByExample(ZERO.(deviceIdentity := idata), found[i]);
      assert AsStore(docs)[found[i].id.value] == r;
    }
    forall id | id in AsStore(docs) && (idata == "" || AsStore(docs)[id].deviceIdentity == idata)
      ensures AsStore(docs)[id] in res
    {
      var d :| d in docs && d.id.value == id;
      QueryByExample(ZERO.(deviceIdentity := idata), d);
      assert d in found;
      var i :| 0 <= i < |found| && found[i] == d;
      assert res[i] == Unmarshal(d);
    }
  }

  /** `RemoveAll` reports zero removals exactly when the collection's map is unchanged. */
  lemma RemovedNothing(docs: seq<Doc>, sel: Doc)
    requires Indexed(docs) && Indexed(Without(docs, sel, {}))
    ensures |Find(docs, sel)| == 0 <==> AsStore(Without(docs, sel, {})) == AsStore(docs)
  {
    var left := Without(docs, sel, {});
    if |Find(docs, sel)| == 0 {
      forall d | d in docs ensures d in left {
        assert d !in Find(docs, sel);
      }
      assert forall d :: d in left <==> d in docs;
    } else {
      var d := Find(docs, sel)[0];
      assert d in Find(docs, sel);
      assert d.id.value in AsStore(docs);
    }
  }
}
