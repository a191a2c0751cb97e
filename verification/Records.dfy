/** The store as a plain map from authentication set id to record, and what each operation of
    `store.DataStore` means on it. `DataStore` refines this; the protocol is stated on it. */
module Records {
  import opened Model

  type Store = map<string, DeviceAuth>

  /** Right-biased overlay: every non-empty field of the update wins, the id stays. */
  function Overlay(d: DeviceAuth, u: DeviceAuth): DeviceAuth {
    DeviceAuth(
      d.id,
      if u.deviceId != "" then u.deviceId else d.deviceId,
      if u.deviceIdentity != "" then u.deviceIdentity else d.deviceIdentity,
      if u.key != "" then u.key else d.key,
      if u.status != "" then u.status else d.status,
      if u.attributes != map[] then u.attributes else d.attributes,
      if u.requestTime.Some? then u.requestTime else d.requestTime)
  }

  function Put(s: Store, u: DeviceAuth): Store {
    s[u.id := Overlay(if u.id in s then s[u.id] else ZERO.(id := u.id), u)]
  }

  function Update(s: Store, u: DeviceAuth): Store {
    if u.id in s then s[u.id := Overlay(s[u.id], u)] else s
  }

  function Insert(s: Store, d: DeviceAuth): Store {
    if d.id in s then s else s[d.id := d]
  }

  function Delete(s: Store, id: string): Store {
    s - {id}
  }

  /** Removal by device id, an empty one meaning any; a removal that stops half-way spares some. */
  function DeleteByDevice(s: Store, deviceId: string, spared: set<string>): Store {
    map id | id in s && !((deviceId == "" || s[id].deviceId == deviceId) && id !in spared) :: s[id]
  }

  lemma DeleteByDeviceIs(s: Store, deviceId: string, spared: set<string>)
    requires deviceId != ""
    ensures DeleteByDevice(s, deviceId, spared) == map id | id in s && (s[id].deviceId != deviceId || id in spared) :: s[id]
  {
  }

  predicate FilterHolds(f: Filter, d: DeviceAuth) {
    && (f.status == "" || d.status == f.status)
    && (f.deviceId == "" || d.deviceId == f.deviceId)
  }

  datatype Filter = Filter(deviceId: string, status: string)

  // ----- the overlay is associative, so updates compose ------------------------------------

  lemma OverlayAssociative(a: DeviceAuth, b: DeviceAuth, c: DeviceAuth)
    ensures Overlay(Overlay(a, b), c) == Overlay(a, Overlay(b, c))
  {
  }

  /** Two puts on one id are one put of the overlaid updates. */
  lemma PutsCompose(s: Store, u: DeviceAuth, v: DeviceAuth)
    requires u.id == v.id
    ensures Put(Put(s, u), v) == Put(s, Overlay(u, v))
  {
    OverlayAssociative(if u.id in s then s[u.id] else ZERO.(id := u.id), u, v);
    assert Put(Put(s, u), v).Keys == Put(s, Overlay(u, v)).Keys;
  }

  lemma PutIdempotent(s: Store, u: DeviceAuth)
    ensures Put(Put(s, u), u) == Put(s, u)
  {
    PutsCompose(s, u, u);
    assert Overlay(u, u) == u;
  }

  lemma PutsCommute(s: Store, u: DeviceAuth, v: DeviceAuth)
    requires u.id != v.id
    ensures Put(Put(s, u), v) == Put(Put(s, v), u)
  {
    assert Put(Put(s, u), v).Keys == Put(Put(s, v), u).Keys;
  }

  /** A strict update is a put that never adds an id; a put is a strict update plus the missing id. */
  lemma UpdateIsGuardedPut(s: Store, u: DeviceAuth)
    ensures Update(s, u) == if u.id in s then Put(s, u) else s
    ensures Update(s, u).Keys == s.Keys
    ensures Put(s, u).Keys == s.Keys + {u.id}
    ensures (forall id :: id in s ==> s[id].id == id) ==> forall id :: id in Put(s, u) ==> Put(s, u)[id].id == id
  {
  }
}
