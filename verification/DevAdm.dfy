/** The application layer. Each method runs its effects on the store and on devauth in the order
    the protocol's steps give, without anything in between; its contract says what it answers,
    what it sends and what the store holds afterwards, and that this is the protocol's own run of
    that request. Replies, store failures, generated ids and the clock are parameters. */
module DevAdms {
  import opened Wrappers
  import opened Model
  import opened Records
  import opened DataStores
  import opened Client
  import opened Protocol
  import opened Scripts

  datatype AuthSet = AuthSet(deviceId: string, key: string, attributes: Attributes)

  /** The protocol's state with this store and nothing else going on. */
  function Quiet(s: Store): State {
    State(s, map[], map[], {}, [])
  }

  lemma RemovesByDevice(s: Store, deviceId: string, spared: set<string>)
    ensures deviceId != "" ==> Run(Quiet(s), [RemoveByDevice(deviceId, spared)]).store == DeleteByDevice(s, deviceId, spared)
  {
    if deviceId != "" {
      RemoveByDeviceRuns(Quiet(s), deviceId, spared);
      DeleteByDeviceIs(s, deviceId, spared);
    }
  }

  // ----- the class ---------------------------------------------------------------------------

  class DevAdm {
    const db: DataStore
    const devauthUrl: string

    constructor (db: DataStore, devauthUrl: string)
      ensures this.db == db && this.devauthUrl == devauthUrl
    {
      this.db := db;
      this.devauthUrl := devauthUrl;
    }

    method ListDeviceAuths(skip: int, limit: nat, filter: Filter, fault: Fault)
      returns (devs: seq<DeviceAuth>, err: Option<Error>)
      requires limit < 0x8000_0000
      ensures err.None? <==> fault.Fine? && 0 <= Int32(skip)
      ensures err.None? ==> devs == Window(Listing(db.docs, filter), Int32(skip), limit)
    {
      devs, err := db.GetDeviceAuths(skip, limit, filter, fault);
      if err.Some? {
        return [], Wrap(err, "failed to fetch devices");
      }
    }

    method SubmitDeviceAuth(dev: DeviceAuth, now: int, fault: Fault) returns (err: Option<Error>)
      requires db.Valid()
      modifies db
      ensures db.Valid()
      ensures db.View() == if fault.FailedBefore? then old(db.View())
                           else Put(old(db.View()), dev.(requestTime := Some(now)))
      ensures Acceptable(dev) && dev.status == PENDING && !fault.FailedBefore? ==>
                && db.View() == old(db.View())[dev.id := dev.(requestTime := Some(now))]
                && db.View() == Run(Quiet(old(db.View())), [Submit(dev, now)]).store
      ensures err.None? <==> fault.Fine?
    {
      var d := dev.(requestTime := Some(now));
      err := db.PutDeviceAuth(d, fault);
      if err.Some? {
        err := Wrap(err, "failed to put device");
      }
      SubmitRuns(Quiet(old(db.View())), dev, now);
      StatusesDistinct();
    }

    method DeleteDeviceAuth(id: string, fault: Fault) returns (err: Option<Error>)
      requires db.Valid()
      modifies db
      ensures db.Valid()
      ensures db.View() == if fault.FailedBefore? then old(db.View()) else old(db.View()) - {id}
      ensures !fault.FailedBefore? ==> db.View() == Run(Quiet(old(db.View())), [RemoveInternal(id)]).store
      ensures err.None? <==> fault.Fine? && id in old(db.View())
      ensures err == Some(ErrNotFound) <==> fault.Fine? && id !in old(db.View())
    {
      RemoveRuns(Quiet(db.View()), id);
      err := db.DeleteDeviceAuth(id, fault);
      if err.Some? && err.value != ErrNotFound {
        err := Wrap(err, "failed to delete device");
      }
    }

    method PropagateDeviceAuthUpdate(dev: DeviceAuth, rsp: HttpResult)
      returns (sent: seq<HttpRequest>, err: Option<Error>)
      ensures sent == if rsp.BadUrl? then []
                      else [HttpRequest("PUT", BuildDevAuthUpdateUrl(devauthUrl, dev.deviceId, dev.id), StatusBody(dev.status))]
      ensures err.None? <==> Acks204(rsp)
      ensures err.Some? ==> (IsUsageError(err.value) <==> Refuses(rsp))
      ensures err != Some(ErrNotFound)
    {
      sent, err := UpdateDevice(devauthUrl, dev.deviceId, dev.id, dev.status, rsp);
      if err.Some? && !IsUsageError(err.value) {
        err := Wrap(err, "failed to propagate device status update");
      }
    }

    /** devauth first, the store only after its acknowledgement. Any stored state is a source state. */
    method UpdateDeviceAuthStatus(id: string, status: string, read: Fault, rsp: HttpResult, write: Fault)
      returns (sent: seq<HttpRequest>, err: Option<Error>)
      requires db.Valid()
      modifies db
      ensures db.Valid()
      ensures sent == if read.Fine? && id in old(db.View()) && !rsp.BadUrl?
                      then [HttpRequest("PUT", BuildDevAuthUpdateUrl(devauthUrl, old(db.View())[id].deviceId, id), StatusBody(status))]
                      else []
      ensures err == Some(ErrNotFound) <==> read.Fine? && id !in old(db.View())
      ensures err.Some? && IsUsageError(err.value) <==> read.Fine? && id in old(db.View()) && Refuses(rsp)
      ensures err.None? <==> read.Fine? && id in old(db.View()) && Acks204(rsp) && write.Fine?
      ensures db.View() == if read.Fine? && id in old(db.View()) && Acks204(rsp) && !write.FailedBefore?
                           then Put(old(db.View()), ZERO.(id := id, deviceId := old(db.View())[id].deviceId, status := status))
                           else old(db.View())
    {
      sent := [];
      var dev;
      dev, err := db.GetDeviceAuth(id, read);
      if err.Some? {
        return;
      }
      dev := dev.(status := status);
      sent, err := PropagateDeviceAuthUpdate(dev, rsp);
      if err.Some? {
        return;
      }
      err := db.PutDeviceAuth(ZERO.(id := dev.id, deviceId := dev.deviceId, status := dev.status), write);
    }

    method AcceptDeviceAuth(id: string, read: Fault, rsp: HttpResult, write: Fault)
      returns (sent: seq<HttpRequest>, err: Option<Error>)
      requires db.Valid()
      modifies db
      ensures db.Valid()
      ensures err == Some(ErrNotFound) <==> read.Fine? && id !in old(db.View())
      ensures err.Some? && IsUsageError(err.value) <==> read.Fine? && id in old(db.View()) && Refuses(rsp)
      ensures err.None? <==> read.Fine? && id in old(db.View()) && Acks204(rsp) && write.Fine?
      ensures sent == if read.Fine? && id in old(db.View()) && !rsp.BadUrl?
                      then [HttpRequest("PUT", BuildDevAuthUpdateUrl(devauthUrl, old(db.View())[id].deviceId, id), StatusBody(ACCEPTED))]
                      else []
      ensures db.View() == if read.Fine? then Run(Quiet(old(db.View())), StatusScript(id, ACCEPTED, rsp, false, write)).store
                           else old(db.View())
      ensures db.View() == if read.Fine? && id in old(db.View()) && Acks204(rsp) && !write.FailedBefore?
                           then old(db.View())[id := old(db.View())[id].(status := ACCEPTED)] else old(db.View())
    {
      StatusRuns(Quiet(db.View()), id, ACCEPTED, rsp, false, write);
      StatusesDistinct();
      sent, err := UpdateDeviceAuthStatus(id, ACCEPTED, read, rsp, write);
    }

    method RejectDeviceAuth(id: string, read: Fault, rsp: HttpResult, write: Fault)
      returns (sent: seq<HttpRequest>, err: Option<Error>)
      requires db.Valid()
      modifies db
      ensures db.Valid()
      ensures err == Some(ErrNotFound) <==> read.Fine? && id !in old(db.View())
      ensures err.Some? && IsUsageError(err.value) <==> read.Fine? && id in old(db.View()) && Refuses(rsp)
      ensures err.None? <==> read.Fine? && id in old(db.View()) && Acks204(rsp) && write.Fine?
      ensures sent == if read.Fine? && id in old(db.View()) && !rsp.BadUrl?
                      then [HttpRequest("PUT", BuildDevAuthUpdateUrl(devauthUrl, old(db.View())[id].deviceId, id), StatusBody(REJECTED))]
                      else []
      ensures db.View() == if read.Fine? then Run(Quiet(old(db.View())), StatusScript(id, REJECTED, rsp, false, write)).store
                           else old(db.View())
      ensures db.View() == if read.Fine? && id in old(db.View()) && Acks204(rsp) && !write.FailedBefore?
                           then old(db.View())[id := old(db.View())[id].(status := REJECTED)] else old(db.View())
    {
      StatusRuns(Quiet(db.View()), id, REJECTED, rsp, false, write);
      StatusesDistinct();
      sent, err := UpdateDeviceAuthStatus(id, REJECTED, read, rsp, write);
    }

    method AcceptDevicePreAuth(id: string, read: Fault, write: Fault) returns (err: Option<Error>)
      requires db.Valid()
      modifies db
      ensures db.Valid()
      ensures err == Some(ErrAuthNotFound) <==> read.Fine? && id !in old(db.View())
      ensures err == Some(ErrNotPreauthorized) <==>
                read.Fine? && id in old(db.View()) && old(db.View())[id].status != PREAUTHORIZED
      ensures err.None? <==>
                read.Fine? && id in old(db.View()) && old(db.View())[id].status == PREAUTHORIZED && write.Fine?
      ensures db.View() == if read.Fine? then Run(Quiet(old(db.View())), PreAcceptScript(id, write)).store else old(db.View())
      ensures db.View() == if read.Fine? && id in old(db.View()) && old(db.View())[id].status == PREAUTHORIZED && !write.FailedBefore?
                           then old(db.View())[id := old(db.View())[id].(status := ACCEPTED)] else old(db.View())
    {
      PreAcceptRuns(Quiet(db.View()), id, write);
      StatusesDistinct();
      var dev;
      dev, err := db.GetDeviceAuth(id, read);
      if err == Some(ErrNotFound) {
        return Some(ErrAuthNotFound);
      } else if err.Some? {
        return Wrap(err, "failed to fetch auth set");
      }
      if dev.status != PREAUTHORIZED {
        return Some(ErrNotPreauthorized);
      }
      err := db.UpdateDeviceAuth(ZERO.(id := dev.id, status := ACCEPTED), write);
      if err.Some? {
        err := Wrap(err, "failed to update auth set");
      }
    }

    method PropagateDeviceAuthDeletion(id: string, read: Fault, rsp: HttpResult)
      returns (sent: seq<HttpRequest>, err: Option<Error>)
      requires db.Valid()
      ensures sent == if read.Fine? && id in db.View() && !rsp.BadUrl?
                      then [HttpRequest("DELETE", BuildAuthSetUrl(devauthUrl, db.View()[id].deviceId, id), NoBody)]
                      else []
      ensures err.None? <==> read.Fine? && id in db.View() && Acks204(rsp)
      ensures err == Some(ErrNotFound) <==> read.Fine? && id !in db.View()
    {
      sent := [];
      var devAuth;
      devAuth, err := db.GetDeviceAuth(id, read);
      if err.Some? {
        if err.value != ErrNotFound {
          err := Wrap(err, "failed to get device authentication set");
        }
        return;
      }
      sent, err := DeleteDeviceAuthSet(devauthUrl, devAuth.deviceId, devAuth.id, rsp);
      if err.Some? && !IsUsageError(err.value) {
        err := Wrap(err, "failed to propagate device authentication set deletion");
      }
    }

    /** Nothing is removed here unless devauth acknowledged the removal there. */
    method DeleteDeviceAuthPropagate(id: string, read: Fault, rsp: HttpResult, write: Fault)
      returns (sent: seq<HttpRequest>, err: Option<Error>)
      requires db.Valid()
      modifies db
      ensures db.Valid()
      ensures err.None? <==> read.Fine? && id in old(db.View()) && Acks204(rsp) && write.Fine?
      ensures err == Some(ErrNotFound) <==> read.Fine? && id !in old(db.View())
      ensures db.View() == if read.Fine? then Run(Quiet(old(db.View())), DeleteScript(id, rsp, false, write)).store else old(db.View())
      ensures sent == if read.Fine? && id in old(db.View()) && !rsp.BadUrl?
                      then [HttpRequest("DELETE", BuildAuthSetUrl(devauthUrl, old(db.View())[id].deviceId, id), NoBody)]
                      else []
      ensures db.View() == if read.Fine? && Acks204(rsp) && !write.FailedBefore? then old(db.View()) - {id} else old(db.View())
    {
      DeleteRuns(Quiet(db.View()), id, rsp, false, write);
      sent, err := PropagateDeviceAuthDeletion(id, read, rsp);
      if err.Some? {
        return;
      }
      err := db.DeleteDeviceAuth(id, write);
      if err.Some? && err.value != ErrNotFound {
        err := Wrap(err, "failed to delete device authentication set");
      }
    }

    method DeleteDeviceData(deviceId: string, fault: Fault, spared: set<string>) returns (err: Option<Error>)
      requires db.Valid()
      modifies db
      ensures db.Valid()
      ensures db.View() == if fault.FailedBefore? then old(db.View())
                           else DeleteByDevice(old(db.View()), deviceId, if fault.Fine? then {} else spared)
      ensures deviceId != "" && !fault.FailedBefore? ==>
                db.View() == Run(Quiet(old(db.View())), [RemoveByDevice(deviceId, if fault.Fine? then {} else spared)]).store
      ensures err == if fault.Fine? && db.View() == old(db.View()) then Some(ErrNotFound) else None
    {
      RemovesByDevice(db.View(), deviceId, if fault.Fine? then {} else spared);
      err := db.DeleteDeviceAuthByDevice(deviceId, fault, spared);
    }

    /** The local record comes first; a failed propagation leaves it in place. Empty identity data
        conflicts with any record, which is why the handler refuses it. */
    method PreauthorizeDevice(authSet: AuthSet, now: int, newId: string, newDeviceId: string,
                              query: Fault, write: Fault, rsp: HttpResult)
      returns (sent: seq<HttpRequest>, err: Option<Error>)
      requires db.Valid()
      requires IsObjectIdHex(newId) && IsObjectIdHex(newDeviceId)
      modifies db
      ensures db.Valid()
      ensures err == Some(AuthSetConflict) <==> query.Fine? && Conflicts(old(db.View()), authSet.deviceId)
      ensures err.None? <==> query.Fine? && !Conflicts(old(db.View()), authSet.deviceId)
                             && write.Fine? && newId !in old(db.View()) && Acks201(rsp)
      ensures db.View() == if query.Fine? && !Conflicts(old(db.View()), authSet.deviceId) && !write.FailedBefore?
                           then Insert(old(db.View()), DeviceAuth(newId, newDeviceId, authSet.deviceId, authSet.key, PREAUTHORIZED,
                                                                  authSet.attributes, Some(now)))
                           else old(db.View())
      ensures query.Fine? && authSet.deviceId != "" && authSet.key != "" && authSet.attributes != map[] ==>
                db.View() == Run(Quiet(old(db.View())), PreauthScript(authSet.deviceId, authSet.key, authSet.attributes, now, newId, newDeviceId,
                                                                      write, rsp, false)).store
      ensures sent == if query.Fine? && !Conflicts(old(db.View()), authSet.deviceId) && write.Fine?
                         && newId !in old(db.View()) && !rsp.BadUrl?
                      then [HttpRequest("POST", devauthUrl + PREAUTHORIZE_URI, PreAuthBody(newDeviceId, newId, authSet.deviceId, authSet.key))]
                      else []
    {
      if authSet.deviceId != "" && authSet.key != "" && authSet.attributes != map[] {
        PreauthRuns(Quiet(db.View()), authSet.deviceId, authSet.key, authSet.attributes, now, newId, newDeviceId, write, rsp, false);
      }
      sent := [];
      var deviceAuths;
      deviceAuths, err := db.GetDeviceAuthsByIdentityData(authSet.deviceId, query);
      if err.Some? {
        return;
      }
      ConflictIff(deviceAuths, db.View(), authSet.deviceId);
      if |deviceAuths| > 0 {
        return sent, Some(AuthSetConflict);
      }
      var dev := new DeviceAuthRef(ZERO);
      dev.value := dev.value.(deviceIdentity := authSet.deviceId);
      dev.value := dev.value.(status := PREAUTHORIZED);
      dev.value := dev.value.(attributes := authSet.attributes);
      dev.value := dev.value.(key := authSet.key);
      dev.value := dev.value.(requestTime := Some(now));
      err := db.InsertDeviceAuth(dev, newId, newDeviceId, write);
      if err.Some? {
        return;
      }
      sent, err := Client.PreauthorizeDevice(devauthUrl, PreAuthBody(dev.value.deviceId, dev.value.id, dev.value.deviceIdentity, dev.value.key), rsp);
      err := Wrap(err, "failed to propagate device status update");
    }
  }

  /** A stored record answers the identity query. */
  ghost predicate Conflicts(s: Store, identity: string) {
    exists id :: id in s && (identity == "" || s[id].deviceIdentity == identity)
  }

  lemma ConflictIff(found: seq<DeviceAuth>, s: Store, identity: string)
    requires forall r :: r in found <==> HasIdentity(s, r, identity)
    ensures |found| > 0 <==> Conflicts(s, identity)
  {
    if |found| > 0 {
      assert HasIdentity(s, found[0], identity);
    }
    if id :| id in s && (identity == "" || s[id].deviceIdentity == identity) {
      assert HasIdentity(s, s[id], identity);
      assert s[id] in found;
    }
  }
}
