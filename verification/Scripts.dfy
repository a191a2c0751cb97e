/** The steps of one request in a row. What each request leaves behind when nothing comes between its
    steps is given in full, from any state and with any other requests in flight: no request waits
    for another, and none stays in flight once it has been answered. */
module Scripts {
  import opened Wrappers
  import opened Model
  import opened Records
  import opened Client
  import opened Protocol

  /** A write that fails before it reaches the store is a dropped request. */
  function WriteOrDrop(fault: Fault, newId: string, newDeviceId: string): Action {
    if fault.FailedBefore? then Crash(0) else Write(0, newId, newDeviceId)
  }

  function StatusScript(id: string, status: string, rsp: HttpResult, applied: bool, write: Fault): seq<Action> {
    BeginAndReply(0, id, status, rsp, applied) + [WriteOrDrop(write, "", "")]
  }

  function PreAcceptScript(id: string, write: Fault): seq<Action> {
    [BeginPreAccept(0, id)] + [WriteOrDrop(write, "", "")]
  }

  function DeleteScript(id: string, rsp: HttpResult, applied: bool, write: Fault): seq<Action> {
    [BeginDelete(0, id)] + ([DevauthReplies(0, rsp, applied)] + [WriteOrDrop(write, "", "")])
  }

  /** An insertion whose acknowledgement is lost ends the request before devauth is called. */
  function PreauthScript(identity: string, key: string, attributes: Attributes, now: int, newId: string, newDeviceId: string,
                         write: Fault, rsp: HttpResult, applied: bool): seq<Action>
  {
    [BeginPreauth(0, identity, key, attributes, now)]
    + ([WriteOrDrop(write, newId, newDeviceId)] + [if write.Fine? then DevauthReplies(0, rsp, applied) else Crash(0)])
  }

  lemma RunTwo(s: State, a: Action, b: Action)
    ensures Run(s, [a] + [b]) == Apply(Apply(s, a), b)
  {
    RunConcat(s, [a], [b]);
    RunOne(s, a);
    RunOne(Apply(s, a), b);
  }

  lemma RunThree(s: State, a: Action, b: Action, c: Action)
    ensures Run(s, [a] + ([b] + [c])) == Apply(Apply(Apply(s, a), b), c)
  {
    RunConcat(s, [a], [b] + [c]);
    RunOne(s, a);
    RunTwo(Apply(s, a), b, c);
  }

  /** A step that does not fit changes nothing at all. */
  lemma NothingHappens(s: State, a: Action)
    requires !Enabled(s, a)
    ensures Apply(s, a) == s
  {
    assert s.log + [] == s.log;
  }

  // ----- a status change ---------------------------------------------------------------------

  /** Over whatever else is in flight: the record's status, devauth's entry and the history change
      as far as the reply and the write allow, and the request is gone. */
  lemma StatusRuns(s: State, id: string, status: string, rsp: HttpResult, applied: bool, write: Fault)
    requires 0 !in s.tasks && (status == ACCEPTED || status == REJECTED) && (id in s.store ==> s.store[id].id == id)
    ensures var s' := Run(s, StatusScript(id, status, rsp, applied, write));
            if id !in s.store then s' == s
            else
              var written := Acks204(rsp) && !write.FailedBefore?;
              s' == State(
                if written then s.store[id := s.store[id].(status := status)] else s.store,
                if Acks204(rsp) || applied then s.devauth[(s.store[id].deviceId, id) := status] else s.devauth,
                s.tasks,
                if written then s.decided + {id} else s.decided,
                s.log + ([StatusRead(s.store[id])] + if Acks204(rsp) then [StatusAcked(s.store[id].deviceId, id, status)] else []))
  {
    var last := WriteOrDrop(write, "", "");
    var s1 := Run(s, BeginAndReply(0, id, status, rsp, applied));
    RunConcat(s, BeginAndReply(0, id, status, rsp, applied), [last]);
    RunOne(s1, last);
    if id !in s.store {
      BeginsOnNothing(s, 0, id, status, rsp, applied);
      NothingHappens(s, last);
    } else if Acks204(rsp) {
      BeginsAndIsAcked(s, 0, id, status, rsp, applied);
      StatusEnds(s1, s.store[id].(status := status), write);
      assert s1.tasks - {0} == s.tasks;
    } else {
      BeginsAndIsRefused(s, 0, id, status, rsp, applied);
      NothingHappens(s1, last);
    }
  }

  /** devauth's reply to a status change, whatever has happened since its record was read. */
  lemma StatusIsAnswered(s: State, dev: DeviceAuth, rsp: HttpResult, applied: bool)
    requires 0 in s.tasks && s.tasks[0] == CallStatus(dev)
    ensures Apply(s, DevauthReplies(0, rsp, applied)) ==
            State(s.store,
                  if Acks204(rsp) || applied then s.devauth[(dev.deviceId, dev.id) := dev.status] else s.devauth,
                  if Acks204(rsp) then s.tasks[0 := WriteStatus(dev)] else s.tasks - {0},
                  s.decided,
                  s.log + if Acks204(rsp) then [StatusAcked(dev.deviceId, dev.id, dev.status)] else [])
  {
  }

  /** The upsert of a status change, whatever it finds: device id and status overwritten in the record
      that is there by then, or a record made of these alone. */
  lemma StatusEnds(s: State, dev: DeviceAuth, write: Fault)
    requires 0 in s.tasks && s.tasks[0] == WriteStatus(dev) && dev.status != "" && (dev.id in s.store ==> s.store[dev.id].id == dev.id)
    ensures var found := if dev.id in s.store then s.store[dev.id] else DeviceAuth(dev.id, "", "", "", "", map[], None);
            Apply(s, WriteOrDrop(write, "", "")) ==
            State(if write.FailedBefore? then s.store
                  else s.store[dev.id := found.(deviceId := if dev.deviceId != "" then dev.deviceId else found.deviceId, status := dev.status)],
                  s.devauth, s.tasks - {0}, if write.FailedBefore? then s.decided else s.decided + {dev.id}, s.log)
  {
    assert s.log + [] == s.log;
  }

  // ----- an internal accept ------------------------------------------------------------------

  lemma PreAcceptRuns(s: State, id: string, write: Fault)
    requires 0 !in s.tasks && (id in s.store ==> s.store[id].id == id)
    ensures var s' := Run(s, PreAcceptScript(id, write));
            if id !in s.store || s.store[id].status != PREAUTHORIZED then s' == s
            else s' == State(
              if write.FailedBefore? then s.store else s.store[id := s.store[id].(status := ACCEPTED)],
              s.devauth, s.tasks,
              if write.FailedBefore? then s.decided else s.decided - {id},
              s.log + [SawPreauthorized(id)])
  {
    var last := WriteOrDrop(write, "", "");
    RunTwo(s, BeginPreAccept(0, id), last);
    if id !in s.store || s.store[id].status != PREAUTHORIZED {
      NothingHappens(s, BeginPreAccept(0, id));
      NothingHappens(s, last);
    } else {
      var s1 := Apply(s, BeginPreAccept(0, id));
      assert s1 == State(s.store, s.devauth, s.tasks[0 := WritePreAccept(id)], s.decided, s.log + [SawPreauthorized(id)]);
      PreAcceptEnds(s1, id, write);
      assert s1.tasks - {0} == s.tasks;
    }
  }

  /** The strict update of an internal accept, whatever it finds: any record that is there by then
      becomes accepted, and none is made. */
  lemma PreAcceptEnds(s: State, id: string, write: Fault)
    requires 0 in s.tasks && s.tasks[0] == WritePreAccept(id) && (id in s.store ==> s.store[id].id == id)
    ensures Apply(s, WriteOrDrop(write, "", "")) ==
            State(if write.FailedBefore? || id !in s.store then s.store else s.store[id := s.store[id].(status := ACCEPTED)],
                  s.devauth, s.tasks - {0}, if write.FailedBefore? then s.decided else s.decided - {id}, s.log)
  {
    StatusesDistinct();
    assert s.log + [] == s.log;
  }

  // ----- a management delete -----------------------------------------------------------------

  lemma DeleteRuns(s: State, id: string, rsp: HttpResult, applied: bool, write: Fault)
    requires 0 !in s.tasks && (id in s.store ==> s.store[id].id == id)
    ensures var s' := Run(s, DeleteScript(id, rsp, applied, write));
            if id !in s.store then s' == s
            else
              var removed := Acks204(rsp) && !write.FailedBefore?;
              s' == State(
                if removed then s.store - {id} else s.store,
                if Acks204(rsp) || applied then s.devauth - {(s.store[id].deviceId, id)} else s.devauth,
                s.tasks,
                if removed then s.decided - {id} else s.decided,
                s.log + if Acks204(rsp) then [DeleteAcked(s.store[id].deviceId, id)] else [])
  {
    var last := WriteOrDrop(write, "", "");
    RunThree(s, BeginDelete(0, id), DevauthReplies(0, rsp, applied), last);
    if id !in s.store {
      NothingHappens(s, BeginDelete(0, id));
      NothingHappens(s, DevauthReplies(0, rsp, applied));
      NothingHappens(s, last);
    } else {
      DeleteBegins(s, id);
      DeleteGoesOn(Apply(s, BeginDelete(0, id)), s.store[id], rsp, applied, write);
      assert s.tasks[0 := CallDelete(s.store[id])] - {0} == s.tasks;
    }
  }

  lemma DeleteGoesOn(s: State, read: DeviceAuth, rsp: HttpResult, applied: bool, write: Fault)
    requires 0 in s.tasks && s.tasks[0] == CallDelete(read)
    ensures var removed := Acks204(rsp) && !write.FailedBefore?;
            Apply(Apply(s, DevauthReplies(0, rsp, applied)), WriteOrDrop(write, "", "")) ==
            State(if removed then s.store - {read.id} else s.store,
                  if Acks204(rsp) || applied then s.devauth - {(read.deviceId, read.id)} else s.devauth,
                  s.tasks - {0},
                  if removed then s.decided - {read.id} else s.decided,
                  s.log + if Acks204(rsp) then [DeleteAcked(read.deviceId, read.id)] else [])
  {
    var s2 := Apply(s, DevauthReplies(0, rsp, applied));
    DeleteIsAnswered(s, read, rsp, applied);
    if Acks204(rsp) {
      DeleteEnds(s2, read.deviceId, read.id, write);
      assert s2.tasks - {0} == s.tasks - {0};
    } else {
      NothingHappens(s2, WriteOrDrop(write, "", ""));
    }
  }

  lemma DeleteBegins(s: State, id: string)
    requires 0 !in s.tasks && id in s.store
    ensures Apply(s, BeginDelete(0, id)) == State(s.store, s.devauth, s.tasks[0 := CallDelete(s.store[id])], s.decided, s.log)
  {
    assert s.log + [] == s.log;
  }

  lemma DeleteIsAnswered(s: State, read: DeviceAuth, rsp: HttpResult, applied: bool)
    requires 0 in s.tasks && s.tasks[0] == CallDelete(read)
    ensures Apply(s, DevauthReplies(0, rsp, applied)) ==
            State(s.store,
                  if Acks204(rsp) || applied then s.devauth - {(read.deviceId, read.id)} else s.devauth,
                  if Acks204(rsp) then s.tasks[0 := RemoveRecord(read.deviceId, read.id)] else s.tasks - {0},
                  s.decided,
                  s.log + if Acks204(rsp) then [DeleteAcked(read.deviceId, read.id)] else [])
  {
  }

  lemma DeleteEnds(s: State, deviceId: string, id: string, write: Fault)
    requires 0 in s.tasks && s.tasks[0] == RemoveRecord(deviceId, id)
    ensures Apply(s, WriteOrDrop(write, "", "")) ==
            State(if write.FailedBefore? then s.store else s.store - {id}, s.devauth, s.tasks - {0},
                  if write.FailedBefore? then s.decided else s.decided - {id}, s.log)
  {
    assert s.log + [] == s.log;
  }

  // ----- a preauthorization ------------------------------------------------------------------

  /** The whole request, devauth's reply included: it inserts unless the identity is taken, the write
      fails or the generated id is not free; devauth holds the new set as preauthorized exactly when
      it was inserted and devauth took the call; nothing stays in flight. */
  lemma PreauthRuns(s: State, identity: string, key: string, attributes: Attributes, now: int, newId: string, newDeviceId: string,
                    write: Fault, rsp: HttpResult, applied: bool)
    requires 0 !in s.tasks && identity != "" && key != "" && attributes != map[]
    requires IsObjectIdHex(newId) && IsObjectIdHex(newDeviceId)
    ensures var s' := Run(s, PreauthScript(identity, key, attributes, now, newId, newDeviceId, write, rsp, applied));
            var rec := DeviceAuth(newId, newDeviceId, identity, key, PREAUTHORIZED, attributes, Some(now));
            if (exists id :: id in s.store && s.store[id].deviceIdentity == identity) || write.FailedBefore? || newId in s.store then s' == s
            else s' == State(
              s.store[newId := rec],
              if write.Fine? && (Acks201(rsp) || applied) then s.devauth[(newDeviceId, newId) := PREAUTHORIZED] else s.devauth,
              s.tasks, s.decided - {newId}, s.log + [Inserted(rec)])
  {
    var first := BeginPreauth(0, identity, key, attributes, now);
    var last := if write.Fine? then DevauthReplies(0, rsp, applied) else Crash(0);
    RunThree(s, first, WriteOrDrop(write, newId, newDeviceId), last);
    if exists id :: id in s.store && s.store[id].deviceIdentity == identity {
      PreauthIsRefused(s, first, WriteOrDrop(write, newId, newDeviceId), last);
    } else {
      PreauthIsFree(s, identity, key, attributes, now, newId, newDeviceId, write, rsp, applied);
    }
  }

  lemma PreauthIsFree(s: State, identity: string, key: string, attributes: Attributes, now: int, newId: string, newDeviceId: string,
                      write: Fault, rsp: HttpResult, applied: bool)
    requires 0 !in s.tasks && identity != "" && key != "" && attributes != map[]
    requires IsObjectIdHex(newId) && IsObjectIdHex(newDeviceId)
    requires forall id :: id in s.store ==> s.store[id].deviceIdentity != identity
    ensures var rec := DeviceAuth(newId, newDeviceId, identity, key, PREAUTHORIZED, attributes, Some(now));
            Apply(Apply(Apply(s, BeginPreauth(0, identity, key, attributes, now)), WriteOrDrop(write, newId, newDeviceId)),
                  if write.Fine? then DevauthReplies(0, rsp, applied) else Crash(0)) ==
            if write.FailedBefore? || newId in s.store then s
            else State(
              s.store[newId := rec],
              if write.Fine? && (Acks201(rsp) || applied) then s.devauth[(newDeviceId, newId) := PREAUTHORIZED] else s.devauth,
              s.tasks, s.decided - {newId}, s.log + [Inserted(rec)])
  {
    var dev := DeviceAuth("", "", identity, key, PREAUTHORIZED, attributes, Some(now));
    PreauthBegins(s, identity, key, attributes, now);
    PreauthGoesOn(s.(tasks := s.tasks[0 := WriteInsert(dev)]), dev, newId, newDeviceId, write, rsp, applied);
    assert s.tasks[0 := WriteInsert(dev)] - {0} == s.tasks;
  }

  lemma PreauthIsRefused(s: State, first: Action, second: Action, third: Action)
    requires !Enabled(s, first) && 0 !in s.tasks
    requires (second.Write? || second.Crash?) && second.rid == 0 && (third.DevauthReplies? || third.Crash?) && third.rid == 0
    ensures Apply(Apply(Apply(s, first), second), third) == s
  {
    NothingHappens(s, first);
    NothingHappens(s, second);
    NothingHappens(s, third);
  }

  lemma PreauthGoesOn(s: State, dev: DeviceAuth, newId: string, newDeviceId: string, write: Fault, rsp: HttpResult, applied: bool)
    requires 0 in s.tasks && s.tasks[0] == WriteInsert(dev) && IsObjectIdHex(newId) && IsObjectIdHex(newDeviceId)
    ensures var rec := dev.(id := newId, deviceId := newDeviceId);
            Apply(Apply(s, WriteOrDrop(write, newId, newDeviceId)), if write.Fine? then DevauthReplies(0, rsp, applied) else Crash(0)) ==
            if write.FailedBefore? || newId in s.store then s.(tasks := s.tasks - {0})
            else State(s.store[newId := rec],
                       if write.Fine? && (Acks201(rsp) || applied) then s.devauth[(newDeviceId, newId) := PREAUTHORIZED] else s.devauth,
                       s.tasks - {0}, s.decided - {newId}, s.log + [Inserted(rec)])
  {
    var rec := dev.(id := newId, deviceId := newDeviceId);
    var s2 := Apply(s, WriteOrDrop(write, newId, newDeviceId));
    PreauthInserts(s, dev, newId, newDeviceId, write);
    if write.FailedBefore? || newId in s.store {
      NothingHappens(s2, if write.Fine? then DevauthReplies(0, rsp, applied) else Crash(0));
    } else {
      PreauthIsAnswered(s2, rec, rsp, applied, write.Fine?);
      assert s2.tasks - {0} == s.tasks - {0};
    }
  }

  lemma PreauthBegins(s: State, identity: string, key: string, attributes: Attributes, now: int)
    requires 0 !in s.tasks && identity != "" && key != "" && attributes != map[]
    requires forall id :: id in s.store ==> s.store[id].deviceIdentity != identity
    ensures var dev := DeviceAuth("", "", identity, key, PREAUTHORIZED, attributes, Some(now));
            Apply(s, BeginPreauth(0, identity, key, attributes, now)) ==
            s.(tasks := s.tasks[0 := WriteInsert(dev)])
  {
    assert s.log + [] == s.log;
  }

  lemma PreauthInserts(s: State, dev: DeviceAuth, newId: string, newDeviceId: string, write: Fault)
    requires 0 in s.tasks && s.tasks[0] == WriteInsert(dev) && IsObjectIdHex(newId) && IsObjectIdHex(newDeviceId)
    ensures var rec := dev.(id := newId, deviceId := newDeviceId);
            Apply(s, WriteOrDrop(write, newId, newDeviceId)) ==
            if write.FailedBefore? || newId in s.store then s.(tasks := s.tasks - {0})
            else State(s.store[newId := rec], s.devauth, s.tasks[0 := CallPreauth(rec)], s.decided - {newId}, s.log + [Inserted(rec)])
  {
    assert s.log + [] == s.log;
  }

  lemma PreauthIsAnswered(s: State, rec: DeviceAuth, rsp: HttpResult, applied: bool, called: bool)
    requires 0 in s.tasks && s.tasks[0] == CallPreauth(rec)
    ensures Apply(s, if called then DevauthReplies(0, rsp, applied) else Crash(0)) ==
            State(s.store,
                  if called && (Acks201(rsp) || applied) then s.devauth[(rec.deviceId, rec.id) := PREAUTHORIZED] else s.devauth,
                  s.tasks - {0}, s.decided, s.log)
  {
    assert s.log + [] == s.log;
  }

  // ----- requests of one step ----------------------------------------------------------------

  /** A submission with every required field is stored whole, as pending; any other changes nothing. */
  lemma SubmitRuns(s: State, dev: DeviceAuth, now: int)
    requires dev.id in s.store ==> s.store[dev.id].id == dev.id
    ensures var rec := dev.(status := PENDING, requestTime := Some(now));
            Run(s, [Submit(dev, now)]) ==
            if dev.id != "" && dev.deviceId != "" && dev.deviceIdentity != "" && dev.key != "" && dev.attributes != map[]
            then State(s.store[dev.id := rec], s.devauth, s.tasks, s.decided - {dev.id}, s.log + [Submitted(rec)])
            else s
  {
    RunOne(s, Submit(dev, now));
    if Acceptable(dev) {
      SubmissionReplaces(s.store, SubmittedRecord(dev, now));
    } else {
      NothingHappens(s, Submit(dev, now));
    }
  }

  lemma SubmissionReplaces(s: Store, u: DeviceAuth)
    requires Acceptable(u) && u.status == PENDING && u.requestTime.Some? && (u.id in s ==> s[u.id].id == u.id)
    ensures Put(s, u) == s[u.id := u]
  {
    StatusesDistinct();
    assert Overlay(if u.id in s then s[u.id] else ZERO.(id := u.id), u) == u;
  }

  lemma RemoveRuns(s: State, id: string)
    ensures Run(s, [RemoveInternal(id)]) == State(s.store - {id}, s.devauth, s.tasks, s.decided - {id}, s.log)
  {
    RunOne(s, RemoveInternal(id));
    assert s.log + [] == s.log;
  }

  /** A removal by device keeps every record of other devices, and the decided sets among them stay
      decided. */
  lemma RemoveByDeviceRuns(s: State, deviceId: string, spared: set<string>)
    requires deviceId != ""
    ensures var left := map id | id in s.store && (s.store[id].deviceId != deviceId || id in spared) :: s.store[id];
            Run(s, [RemoveByDevice(deviceId, spared)]) == State(left, s.devauth, s.tasks, s.decided * left.Keys, s.log)
  {
    RunOne(s, RemoveByDevice(deviceId, spared));
    assert s.log + [] == s.log;
  }
}
