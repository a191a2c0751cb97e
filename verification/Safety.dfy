/** What holds in every interleaving of the protocol, with requests dropped at any point and
    devauth changes whose acknowledgement is lost. */
module Safety {
  import opened Wrappers
  import opened Model
  import opened Client
  import opened Protocol

  // ----- the invariant -----------------------------------------------------------------------

  predicate Introduces(e: Event, id: string) {
    (e.Submitted? || e.Inserted?) && e.dev.id == id
  }

  /** The id was once submitted or preauthorized. */
  ghost predicate Introduced(log: seq<Event>, id: string) {
    exists e :: e in log && Introduces(e, id)
  }

  /** The part of a record that only a submission or a preauthorization writes. */
  predicate SameDescription(a: DeviceAuth, b: DeviceAuth) {
    && a.deviceIdentity == b.deviceIdentity && a.key == b.key
    && a.attributes == b.attributes && a.requestTime == b.requestTime
  }

  /** That part is taken whole from one submission or preauthorization of this id, or is empty. */
  ghost predicate HasOrigin(log: seq<Event>, r: DeviceAuth) {
    SameDescription(r, ZERO) || exists e :: e in log && Introduces(e, r.id) && SameDescription(r, e.dev)
  }

  ghost predicate RecordOk(log: seq<Event>, id: string, r: DeviceAuth) {
    && r.id == id && id != "" && r.deviceId != "" && KnownStatus(r.status)
    && Introduced(log, id)
    && HasOrigin(log, r)
    && (r.status == REJECTED ==> StatusAcked(r.deviceId, id, REJECTED) in log)
    && (r.status == ACCEPTED ==> StatusAcked(r.deviceId, id, ACCEPTED) in log || SawPreauthorized(id) in log)
    && (r.status == PREAUTHORIZED ==> Inserted(r) in log)
  }

  /** A status change carries the record it read, with the requested status in it. */
  ghost predicate StatusTaskOk(log: seq<Event>, dev: DeviceAuth) {
    && dev.id != "" && dev.deviceId != "" && (dev.status == ACCEPTED || dev.status == REJECTED)
    && Introduced(log, dev.id)
    && exists read :: StatusRead(read) in log && dev == read.(status := dev.status)
  }

  ghost predicate TaskOk(log: seq<Event>, t: Task) {
    match t
    case CallStatus(dev) => StatusTaskOk(log, dev)
    case WriteStatus(dev) => StatusTaskOk(log, dev) && StatusAcked(dev.deviceId, dev.id, dev.status) in log
    case WritePreAccept(id) => id != "" && SawPreauthorized(id) in log
    case CallDelete(_) => true
    case RemoveRecord(deviceId, id) => DeleteAcked(deviceId, id) in log
    case WriteInsert(dev) => dev.status == PREAUTHORIZED && dev.deviceIdentity != ""
    case CallPreauth(dev) => Inserted(dev) in log
  }

  ghost predicate Inv(s: State) {
    && (forall id :: id in s.store ==> RecordOk(s.log, id, s.store[id]))
    && (forall rid :: rid in s.tasks ==> TaskOk(s.log, s.tasks[rid]))
  }

  // ----- every step keeps it -----------------------------------------------------------------

  lemma RecordOkGrows(log: seq<Event>, more: seq<Event>, id: string, r: DeviceAuth)
    requires RecordOk(log, id, r)
    ensures RecordOk(log + more, id, r)
  {
    var e :| e in log && Introduces(e, id);
    assert e in log + more;
    if !SameDescription(r, ZERO) {
      var o :| o in log && Introduces(o, r.id) && SameDescription(r, o.dev);
      assert o in log + more;
    }
  }

  lemma TaskOkGrows(log: seq<Event>, more: seq<Event>, t: Task)
    requires TaskOk(log, t)
    ensures TaskOk(log + more, t)
  {
    if t.CallStatus? || t.WriteStatus? {
      var e :| e in log && Introduces(e, t.dev.id);
      assert e in log + more;
      var read :| StatusRead(read) in log && t.dev == read.(status := t.dev.status);
      assert StatusRead(read) in log + more;
    }
  }

  /** A submission replaces everything a record describes. */
  lemma SubmitKeepsStore(s: State, a: Action, id: string)
    requires Inv(s) && a.Submit? && Enabled(s, a) && id in Apply(s, a).store
    ensures RecordOk(Apply(s, a).log, id, Apply(s, a).store[id])
  {
    StatusesDistinct();
    var u := SubmittedRecord(a.dev, a.now);
    if id == u.id {
      var log := Apply(s, a).log;
      assert log[|s.log|] == Submitted(u);
      assert Submitted(u) in log && Introduces(Submitted(u), id);
      assert SameDescription(Apply(s, a).store[id], u);
    } else {
      RecordOkGrows(s.log, Emitted(s, a), id, s.store[id]);
    }
  }

  /** The upsert after a devauth acknowledgement writes the acknowledged device id and status and
      leaves the description as it finds it, empty if the record is gone. */
  lemma StatusWriteKeepsStore(s: State, a: Action, id: string)
    requires Inv(s) && a.Write? && Enabled(s, a) && s.tasks[a.rid].WriteStatus? && id in Apply(s, a).store
    ensures RecordOk(Apply(s, a).log, id, Apply(s, a).store[id])
  {
    StatusesDistinct();
    var dev := s.tasks[a.rid].dev;
    assert TaskOk(s.log, s.tasks[a.rid]);
    assert Apply(s, a).log == s.log;
    if id == dev.id {
      var r := Apply(s, a).store[id];
      assert r.deviceId == dev.deviceId && r.status == dev.status;
      if id in s.store {
        assert RecordOk(s.log, id, s.store[id]);
        assert SameDescription(r, s.store[id]);
      }
    } else {
      assert RecordOk(s.log, id, s.store[id]);
    }
  }

  lemma PreAcceptKeepsStore(s: State, a: Action, id: string)
    requires Inv(s) && a.Write? && Enabled(s, a) && s.tasks[a.rid].WritePreAccept? && id in Apply(s, a).store
    ensures RecordOk(Apply(s, a).log, id, Apply(s, a).store[id])
  {
    StatusesDistinct();
    assert TaskOk(s.log, s.tasks[a.rid]);
    assert Apply(s, a).log == s.log;
    var before, r := s.store[id], Apply(s, a).store[id];
    assert RecordOk(s.log, id, before);
    assert r == if id == s.tasks[a.rid].id then before.(status := ACCEPTED) else before;
    if !SameDescription(before, ZERO) {
      var o :| o in s.log && Introduces(o, before.id) && SameDescription(before, o.dev);
      assert SameDescription(r, o.dev);
    }
  }

  lemma InsertKeepsStore(s: State, a: Action, id: string)
    requires Inv(s) && a.Write? && Enabled(s, a) && s.tasks[a.rid].WriteInsert? && id in Apply(s, a).store
    ensures RecordOk(Apply(s, a).log, id, Apply(s, a).store[id])
  {
    StatusesDistinct();
    assert TaskOk(s.log, s.tasks[a.rid]);
    if id in s.store {
      RecordOkGrows(s.log, Emitted(s, a), id, s.store[id]);
    } else {
      var d := s.tasks[a.rid].dev.(id := a.newId, deviceId := a.newDeviceId);
      assert Apply(s, a).log[|s.log|] == Inserted(d);
      assert Inserted(d) in Apply(s, a).log && Introduces(Inserted(d), id);
    }
  }

  lemma StepKeepsStore(s: State, a: Action, id: string)
    requires Inv(s) && id in Apply(s, a).store
    ensures RecordOk(Apply(s, a).log, id, Apply(s, a).store[id])
  {
    if Enabled(s, a) && a.Submit? {
      SubmitKeepsStore(s, a, id);
    } else if Enabled(s, a) && a.Write? && s.tasks[a.rid].WriteStatus? {
      StatusWriteKeepsStore(s, a, id);
    } else if Enabled(s, a) && a.Write? && s.tasks[a.rid].WritePreAccept? {
      PreAcceptKeepsStore(s, a, id);
    } else if Enabled(s, a) && a.Write? && s.tasks[a.rid].WriteInsert? {
      InsertKeepsStore(s, a, id);
    } else {
      assert Apply(s, a).store[id] == s.store[id];
      RecordOkGrows(s.log, Emitted(s, a), id, s.store[id]);
    }
  }

  lemma BeginKeepsTasks(s: State, a: Action, rid: nat)
    requires Inv(s) && Enabled(s, a) && (a.BeginStatus? || a.BeginPreAccept? || a.BeginDelete? || a.BeginPreauth?)
    requires rid in Apply(s, a).tasks
    ensures TaskOk(Apply(s, a).log, Apply(s, a).tasks[rid])
  {
    var log := Apply(s, a).log;
    assert Emitted(s, a) != [] ==> log[|s.log|] == Emitted(s, a)[0];
    if rid in s.tasks {
      TaskOkGrows(s.log, Emitted(s, a), s.tasks[rid]);
    } else if a.BeginStatus? {
      assert RecordOk(s.log, a.id, s.store[a.id]);
      RecordOkGrows(s.log, Emitted(s, a), a.id, s.store[a.id]);
      assert StatusRead(s.store[a.id]) in log;
    } else if a.BeginPreAccept? {
      assert RecordOk(s.log, a.id, s.store[a.id]);
    }
  }

  lemma ReplyKeepsTasks(s: State, a: Action, rid: nat)
    requires Inv(s) && Enabled(s, a) && a.DevauthReplies? && rid in Apply(s, a).tasks
    ensures TaskOk(Apply(s, a).log, Apply(s, a).tasks[rid])
  {
    var log := Apply(s, a).log;
    assert Emitted(s, a) != [] ==> log[|s.log|] == Emitted(s, a)[0];
    TaskOkGrows(s.log, Emitted(s, a), s.tasks[rid]);
    if a.rid == rid && s.tasks[rid].CallDelete? {
      assert DeleteAcked(s.tasks[rid].dev.deviceId, s.tasks[rid].dev.id) in log;
    }
  }

  lemma WriteKeepsTasks(s: State, a: Action, rid: nat)
    requires Inv(s) && Enabled(s, a) && a.Write? && rid in Apply(s, a).tasks
    ensures TaskOk(Apply(s, a).log, Apply(s, a).tasks[rid])
  {
    var log := Apply(s, a).log;
    assert Emitted(s, a) != [] ==> log[|s.log|] == Emitted(s, a)[0];
    TaskOkGrows(s.log, Emitted(s, a), s.tasks[rid]);
  }

  lemma StepKeepsTasks(s: State, a: Action, rid: nat)
    requires Inv(s) && rid in Apply(s, a).tasks
    ensures TaskOk(Apply(s, a).log, Apply(s, a).tasks[rid])
  {
    if Enabled(s, a) && (a.BeginStatus? || a.BeginPreAccept? || a.BeginDelete? || a.BeginPreauth?) {
      BeginKeepsTasks(s, a, rid);
    } else if Enabled(s, a) && a.DevauthReplies? {
      ReplyKeepsTasks(s, a, rid);
    } else if Enabled(s, a) && a.Write? {
      WriteKeepsTasks(s, a, rid);
    } else {
      TaskOkGrows(s.log, Emitted(s, a), s.tasks[rid]);
    }
  }

  lemma StepKeepsInv(s: State, a: Action)
    requires Inv(s)
    ensures Inv(Apply(s, a))
  {
    forall id | id in Apply(s, a).store ensures RecordOk(Apply(s, a).log, id, Apply(s, a).store[id]) {
      StepKeepsStore(s, a, id);
    }
    forall rid | rid in Apply(s, a).tasks ensures TaskOk(Apply(s, a).log, Apply(s, a).tasks[rid]) {
      StepKeepsTasks(s, a, rid);
    }
  }

  lemma {:induction false} RunKeepsInv(s: State, actions: seq<Action>)
    requires Inv(s)
    ensures Inv(Run(s, actions))
    decreases |actions|
  {
    if actions != [] {
      StepKeepsInv(s, actions[0]);
      RunKeepsInv(Apply(s, actions[0]), actions[1..]);
    }
  }

  // ----- what it says about whole runs -------------------------------------------------------

  /** Event e was emitted by the k-th action, in the state the run had then reached. */
  ghost predicate Happened(actions: seq<Action>, k: nat, e: Event) {
    k < |actions| && e in Emitted(Run(INIT, actions[..k]), actions[k])
  }

  /** What each event stands for, in terms of the action that emitted it and the state before. */
  lemma EventMeans(actions: seq<Action>, k: nat, e: Event)
    requires Happened(actions, k, e)
    ensures var s, a := Run(INIT, actions[..k]), actions[k];
            match e
            case Submitted(d) => a.Submit? && d == a.dev.(status := PENDING, requestTime := Some(a.now)) && Apply(s, a).store[d.id].status == PENDING
            case Inserted(d) => a.Write? && d.id !in s.store && Apply(s, a).store == s.store[d.id := d]
            case StatusAcked(deviceId, id, status) =>
              && a.DevauthReplies? && Acks204(a.reply) && a.rid in s.tasks && s.tasks[a.rid].CallStatus?
              && (var dev := s.tasks[a.rid].dev; dev.deviceId == deviceId && dev.id == id && dev.status == status)
              && Apply(s, a).devauth == s.devauth[(deviceId, id) := status]
            case SawPreauthorized(id) => a.BeginPreAccept? && id in s.store && s.store[id].status == PREAUTHORIZED
            case DeleteAcked(deviceId, id) =>
              && a.DevauthReplies? && Acks204(a.reply) && a.rid in s.tasks && s.tasks[a.rid].CallDelete?
              && Apply(s, a).devauth == s.devauth - {(deviceId, id)}
            case StatusRead(d) => a.BeginStatus? && a.id in s.store && s.store[a.id] == d
  {
    StatusesDistinct();
  }

  lemma LoggedHappened(actions: seq<Action>, e: Event)
    requires e in Run(INIT, actions).log
    ensures exists k: nat :: Happened(actions, k, e)
  {
    HistoryIsReal(INIT, actions, e);
    var k :| 0 <= k < |actions| && e in Emitted(Run(INIT, actions[..k]), actions[k]);
    assert Happened(actions, k, e);
  }

  lemma InvAlways(actions: seq<Action>)
    ensures Inv(Run(INIT, actions))
  {
    RunKeepsInv(INIT, actions);
  }

  /** No device is locally rejected unless devauth acknowledged exactly that before; none is
      accepted unless devauth did, or an internal accept had read the set as preauthorized. */
  lemma DecisionsWereAcknowledged(actions: seq<Action>, id: string)
    requires id in Run(INIT, actions).store
    ensures var r := Run(INIT, actions).store[id];
            && r.id == id && id != "" && r.deviceId != "" && KnownStatus(r.status)
            && (r.status == REJECTED ==> exists k: nat :: Happened(actions, k, StatusAcked(r.deviceId, id, REJECTED)))
            && (r.status == ACCEPTED ==> || (exists k: nat :: Happened(actions, k, StatusAcked(r.deviceId, id, ACCEPTED)))
                                         || (exists k: nat :: Happened(actions, k, SawPreauthorized(id))))
  {
    InvAlways(actions);
    var s := Run(INIT, actions);
    assert RecordOk(s.log, id, s.store[id]);
    var r := s.store[id];
    if StatusAcked(r.deviceId, id, r.status) in s.log {
      LoggedHappened(actions, StatusAcked(r.deviceId, id, r.status));
    }
    if SawPreauthorized(id) in s.log {
      LoggedHappened(actions, SawPreauthorized(id));
    }
  }

  /** A record's identity data, key, attributes and time come from one submission or
      preauthorization of its id, never mixed, or are all empty; its id was submitted or
      preauthorized; and while it is preauthorized it is exactly what was inserted. */
  lemma DescriptionsAreWhole(actions: seq<Action>, id: string)
    requires id in Run(INIT, actions).store
    ensures var r := Run(INIT, actions).store[id];
            && (exists k: nat, e :: Happened(actions, k, e) && Introduces(e, id))
            && (SameDescription(r, ZERO)
                || exists k: nat, e :: Happened(actions, k, e) && Introduces(e, id) && SameDescription(r, e.dev))
            && (r.status == PREAUTHORIZED ==> exists k: nat :: Happened(actions, k, Inserted(r)))
  {
    InvAlways(actions);
    var s := Run(INIT, actions);
    var r := s.store[id];
    assert RecordOk(s.log, id, r);
    var e :| e in s.log && Introduces(e, id);
    LoggedHappened(actions, e);
    if !SameDescription(r, ZERO) {
      var o :| o in s.log && Introduces(o, r.id) && SameDescription(r, o.dev);
      LoggedHappened(actions, o);
    }
    if r.status == PREAUTHORIZED {
      LoggedHappened(actions, Inserted(r));
    }
  }

  predicate Holds(s: State, rid: nat, t: Task) {
    rid in s.tasks && s.tasks[rid] == t
  }

  /** The request's own step j gave it task t, and it has held t ever since. */
  ghost predicate HeldSince(actions: seq<Action>, rid: nat, t: Task, j: nat) {
    && j < |actions| && !Holds(Run(INIT, actions[..j]), rid, t)
    && forall m: nat :: j < m <= |actions| ==> Holds(Run(INIT, actions[..m]), rid, t)
  }

  /** Step j is devauth's reply to request rid and emitted e, and the request holds t since then. */
  ghost predicate OwnReply(actions: seq<Action>, rid: nat, t: Task, e: Event, j: nat) {
    HeldSince(actions, rid, t, j) && actions[j].DevauthReplies? && actions[j].rid == rid && Happened(actions, j, e)
  }

  lemma {:induction false} TakenAndHeld(actions: seq<Action>, rid: nat)
    requires rid in Run(INIT, actions).tasks
    ensures exists j: nat :: HeldSince(actions, rid, Run(INIT, actions).tasks[rid], j)
    decreases |actions|
  {
    var n, t := |actions| - 1, Run(INIT, actions).tasks[rid];
    var before := actions[..n];
    assert forall m: nat :: m <= n ==> before[..m] == actions[..m];
    assert actions[..n + 1] == actions;
    if Holds(Run(INIT, before), rid, t) {
      TakenAndHeld(before, rid);
      var j: nat :| HeldSince(before, rid, t, j);
      assert HeldSince(actions, rid, t, j);
    } else {
      assert HeldSince(actions, rid, t, n);
    }
  }

  lemma RunNext(s: State, actions: seq<Action>, j: nat)
    requires j < |actions|
    ensures Run(s, actions[..j + 1]) == Apply(Run(s, actions[..j]), actions[j])
  {
    assert actions[..j + 1] == actions[..j] + [actions[j]];
    RunConcat(s, actions[..j], [actions[j]]);
    RunOne(Run(s, actions[..j]), actions[j]);
  }

  lemma GetsToWrite(s: State, a: Action, rid: nat, t: Task)
    requires !Holds(s, rid, t) && Holds(Apply(s, a), rid, t) && (t.RemoveRecord? || t.WriteStatus?)
    ensures a.DevauthReplies? && a.rid == rid
    ensures t.RemoveRecord? ==> Emitted(s, a) == [DeleteAcked(t.deviceId, t.id)]
    ensures t.WriteStatus? ==>
              && Emitted(s, a) == [StatusAcked(t.dev.deviceId, t.dev.id, t.dev.status)]
              && Holds(s, rid, CallStatus(t.dev)) && Acks204(a.reply)
  {
  }

  /** A request gets to its write only by devauth's acknowledgement of its own call. */
  lemma WriteNeedsOwnReply(actions: seq<Action>, rid: nat)
    requires rid in Run(INIT, actions).tasks
    ensures var t := Run(INIT, actions).tasks[rid];
            && (t.RemoveRecord? ==> exists j: nat :: OwnReply(actions, rid, t, DeleteAcked(t.deviceId, t.id), j))
            && (t.WriteStatus? ==> exists j: nat :: OwnReply(actions, rid, t, StatusAcked(t.dev.deviceId, t.dev.id, t.dev.status), j))
  {
    var t := Run(INIT, actions).tasks[rid];
    TakenAndHeld(actions, rid);
    var j: nat :| HeldSince(actions, rid, t, j);
    if t.RemoveRecord? || t.WriteStatus? {
      RunNext(INIT, actions, j);
      assert Holds(Run(INIT, actions[..j + 1]), rid, t);
      GetsToWrite(Run(INIT, actions[..j]), actions[j], rid, t);
    }
    if t.RemoveRecord? {
      assert OwnReply(actions, rid, t, DeleteAcked(t.deviceId, t.id), j);
    }
    if t.WriteStatus? {
      assert OwnReply(actions, rid, t, StatusAcked(t.dev.deviceId, t.dev.id, t.dev.status), j);
    }
  }

  /** When the upsert of a status change is about to run, a read had seen the record before, and
      devauth acknowledged that status to this very request for the device id the read found, so an
      id can come back into the store only by a request that once read it there. */
  lemma StatusWritesFollowReads(actions: seq<Action>, rid: nat)
    requires rid in Run(INIT, actions).tasks && Run(INIT, actions).tasks[rid].WriteStatus?
    ensures var t := Run(INIT, actions).tasks[rid];
            && (exists k: nat, read :: Happened(actions, k, StatusRead(read)) && t.dev == read.(status := t.dev.status))
            && (exists j: nat :: OwnReply(actions, rid, t, StatusAcked(t.dev.deviceId, t.dev.id, t.dev.status), j))
  {
    InvAlways(actions);
    var s := Run(INIT, actions);
    assert TaskOk(s.log, s.tasks[rid]);
    var dev := s.tasks[rid].dev;
    var read :| StatusRead(read) in s.log && dev == read.(status := dev.status);
    LoggedHappened(actions, StatusRead(read));
    WriteNeedsOwnReply(actions, rid);
  }

  /** Order across the services, at the moment each is about to change: when a management delete
      removes its record, devauth has already acknowledged the deletion of that very set to that very
      request; when devauth is told of a preauthorization, that very record has already been
      inserted, and if it agrees it holds it as preauthorized. Nothing but a reply changes devauth. */
  lemma ServicesChangeInOrder(actions: seq<Action>, k: nat)
    requires k < |actions| && Enabled(Run(INIT, actions[..k]), actions[k])
    ensures var s, a := Run(INIT, actions[..k]), actions[k];
            && (a.Write? && s.tasks[a.rid].RemoveRecord? ==>
                  var t := s.tasks[a.rid];
                  exists j: nat :: OwnReply(actions[..k], a.rid, t, DeleteAcked(t.deviceId, t.id), j))
            && (a.DevauthReplies? && s.tasks[a.rid].CallPreauth? ==>
                  && (exists j: nat :: Happened(actions[..k], j, Inserted(s.tasks[a.rid].dev)))
                  && (var dev := s.tasks[a.rid].dev;
                      Acks201(a.reply) ==> Apply(s, a).devauth == s.devauth[(dev.deviceId, dev.id) := PREAUTHORIZED]))
            && (!a.DevauthReplies? ==> Apply(s, a).devauth == s.devauth)
  {
    InvAlways(actions[..k]);
    var s, a := Run(INIT, actions[..k]), actions[k];
    if a.Write? && s.tasks[a.rid].RemoveRecord? {
      WriteNeedsOwnReply(actions[..k], a.rid);
    }
    if a.DevauthReplies? && s.tasks[a.rid].CallPreauth? {
      assert TaskOk(s.log, s.tasks[a.rid]);
      LoggedHappened(actions[..k], Inserted(s.tasks[a.rid].dev));
    }
  }

  /** Which steps can add an id: a submission, an insertion, or the upsert of a status change. A
      strict update never does. */
  lemma WhatAddsAnId(s: State, a: Action, id: string)
    requires id in Apply(s, a).store && id !in s.store
    ensures || (a.Submit? && a.dev.id == id)
            || (a.Write? && a.rid in s.tasks && s.tasks[a.rid].WriteInsert? && a.newId == id)
            || (a.Write? && a.rid in s.tasks && s.tasks[a.rid].WriteStatus? && s.tasks[a.rid].dev.id == id)
  {
  }

  // ----- preauthorization is left once and for all -------------------------------------------

  /** Generated ids are new: not submitted or generated before. A later submission may reuse them. */
  ghost predicate FreshStep(s: State, a: Action) {
    a.Write? && a.rid in s.tasks && s.tasks[a.rid].WriteInsert? ==> !Introduced(s.log, a.newId)
  }

  ghost predicate FreshRun(s: State, actions: seq<Action>)
    decreases |actions|
  {
    actions == [] || (FreshStep(s, actions[0]) && FreshRun(Apply(s, actions[0]), actions[1..]))
  }

  predicate IsPreauthorized(s: State, id: string) {
    id in s.store && s.store[id].status == PREAUTHORIZED
  }

  /** An id that was in the store and is not preauthorized never is again. */
  lemma {:induction false} NeverReentersPreauthorized(s: State, actions: seq<Action>, id: string)
    requires Inv(s) && FreshRun(s, actions)
    requires Introduced(s.log, id) && !IsPreauthorized(s, id)
    ensures !IsPreauthorized(Run(s, actions), id)
    decreases |actions|
  {
    if actions != [] {
      var s' := Apply(s, actions[0]);
      StatusesDistinct();
      StepKeepsInv(s, actions[0]);
      var e :| e in s.log && Introduces(e, id);
      assert e in s'.log;
      StaysOut(s, actions[0], id);
      NeverReentersPreauthorized(s', actions[1..], id);
    }
  }

  lemma {:induction false} LogGrows(s: State, actions: seq<Action>, e: Event)
    requires e in s.log
    ensures e in Run(s, actions).log
    decreases |actions|
  {
    if actions != [] {
      LogGrows(Apply(s, actions[0]), actions[1..], e);
    }
  }

  /** From the start: a set that has been stored and is later found not preauthorized stays so,
      whatever runs next. */
  lemma LeavesPreauthorizedForGood(first: seq<Action>, second: seq<Action>, third: seq<Action>, id: string)
    requires id in Run(INIT, first).store && !IsPreauthorized(Run(INIT, first + second), id)
    requires FreshRun(Run(INIT, first + second), third)
    ensures !IsPreauthorized(Run(INIT, (first + second) + third), id)
  {
    InvAlways(first);
    InvAlways(first + second);
    assert RecordOk(Run(INIT, first).log, id, Run(INIT, first).store[id]);
    var e :| e in Run(INIT, first).log && Introduces(e, id);
    RunConcat(INIT, first, second);
    LogGrows(Run(INIT, first), second, e);
    NeverReentersPreauthorized(Run(INIT, first + second), third, id);
    RunConcat(INIT, first + second, third);
  }

  lemma StaysOut(s: State, a: Action, id: string)
    requires Inv(s) && FreshStep(s, a) && Introduced(s.log, id) && !IsPreauthorized(s, id)
    ensures !IsPreauthorized(Apply(s, a), id)
  {
    StatusesDistinct();
    if a.Write? && a.rid in s.tasks {
      assert TaskOk(s.log, s.tasks[a.rid]);
    }
  }

  /** A record that is preauthorized at two points of a run has not changed between them. */
  lemma {:induction false} PreauthorizedStaysAsInserted(s: State, actions: seq<Action>, id: string)
    requires Inv(s) && FreshRun(s, actions)
    requires IsPreauthorized(s, id) && IsPreauthorized(Run(s, actions), id)
    ensures Run(s, actions).store[id] == s.store[id]
    decreases |actions|
  {
    if actions != [] {
      var s' := Apply(s, actions[0]);
      StepKeepsInv(s, actions[0]);
      assert RecordOk(s.log, id, s.store[id]);
      RecordOkGrows(s.log, Emitted(s, actions[0]), id, s.store[id]);
      if !IsPreauthorized(s', id) {
        NeverReentersPreauthorized(s', actions[1..], id);
      } else {
        UnchangedByStep(s, actions[0], id);
        PreauthorizedStaysAsInserted(s', actions[1..], id);
      }
    }
  }

  lemma UnchangedByStep(s: State, a: Action, id: string)
    requires Inv(s) && FreshStep(s, a) && IsPreauthorized(s, id) && IsPreauthorized(Apply(s, a), id)
    ensures Apply(s, a).store[id] == s.store[id]
  {
    StatusesDistinct();
    assert RecordOk(s.log, id, s.store[id]);
    if a.Write? && a.rid in s.tasks {
      assert TaskOk(s.log, s.tasks[a.rid]);
    }
  }

  // ----- where a set is addressed ------------------------------------------------------------

  /** What the router hands on as a path parameter: the text up to the next slash or dot. */
  function SplitParam(remaining: string): (r: (string, string))
    ensures r.0 + r.1 == remaining && '/' !in r.0 && '.' !in r.0
    ensures r.1 != "" ==> r.1[0] == '/' || r.1[0] == '.'
  {
    if remaining == "" || remaining[0] == '/' || remaining[0] == '.' then ("", remaining)
    else
      var rest := SplitParam(remaining[1..]);
      ([remaining[0]] + rest.0, rest.1)
  }

  /** Submissions come through the router, which gives them their ids. */
  ghost predicate Routed(actions: seq<Action>) {
    forall k :: 0 <= k < |actions| && actions[k].Submit? ==> exists remaining :: actions[k].dev.id == SplitParam(remaining).0
  }

  /** So no stored id holds a slash: a submitted one is a path parameter, any other is generated. */
  lemma StoredIdsHoldNoSlash(actions: seq<Action>, id: string)
    requires Routed(actions) && id in Run(INIT, actions).store
    ensures '/' !in id
  {
    DescriptionsAreWhole(actions, id);
    var k: nat, e :| Happened(actions, k, e) && Introduces(e, id);
    if e.Submitted? {
      EventMeans(actions, k, e);
      var remaining :| actions[k].dev.id == SplitParam(remaining).0;
    } else {
      assert IsObjectIdHex(id);
    }
  }

  /** No two stored sets share a status URL or a deletion URL, whatever their device ids hold. */
  lemma StoredSetsHaveTheirOwnUrls(base: string, actions: seq<Action>, id: string, id': string)
    requires '{' !in base && Routed(actions) && id != id'
    requires id in Run(INIT, actions).store && id' in Run(INIT, actions).store
    ensures var d, d' := Run(INIT, actions).store[id].deviceId, Run(INIT, actions).store[id'].deviceId;
            && BuildDevAuthUpdateUrl(base, d, id) != BuildDevAuthUpdateUrl(base, d', id')
            && BuildAuthSetUrl(base, d, id) != BuildAuthSetUrl(base, d', id')
  {
    StoredIdsHoldNoSlash(actions, id);
    StoredIdsHoldNoSlash(actions, id');
    var d, d' := Run(INIT, actions).store[id].deviceId, Run(INIT, actions).store[id'].deviceId;
    if BuildDevAuthUpdateUrl(base, d, id) == BuildDevAuthUpdateUrl(base, d', id') || BuildAuthSetUrl(base, d, id) == BuildAuthSetUrl(base, d', id') {
      UrlsAreInjective(base, d, id, d', id');
    }
  }
}
