/** `Sort("id")`: records in increasing order of their ids, compared character by character. */
module Ordering {
  import opened Model

  predicate Less(a: string, b: string) {
    b != "" && (a == "" || a[0] < b[0] || (a[0] == b[0] && Less(a[1..], b[1..])))
  }

  /** Ascending: the first difference decides, and a front comes before what it starts. */
  lemma {:induction false} LessIs(front: string, a: string, b: string)
    ensures Less(front + a, front + b) <==> Less(a, b)
    ensures a != "" && b != "" && a[0] < b[0] ==> Less(a, b) && !Less(b, a)
    ensures a != "" ==> Less("", a) && !Less(a, "")
  {
    if front == "" {
      assert front + a == a && front + b == b;
    } else {
      LessIs(front[1..], a, b);
      assert (front + a)[1..] == front[1..] + a && (front + b)[1..] == front[1..] + b;
    }
  }

  lemma {:induction false} LessTotal(a: string, b: string)
    ensures Less(a, b) || Less(b, a) || a == b
    ensures !(Less(a, b) && Less(b, a)) && (a == b ==> !Less(a, b))
  {
    if a != "" && b != "" && a[0] == b[0] {
      LessTotal(a[1..], b[1..]);
      assert a == [a[0]] + a[1..] && b == [b[0]] + b[1..];
    }
  }

  lemma {:induction false} LessTransitive(a: string, b: string, c: string)
    requires Less(a, b) && Less(b, c)
    ensures Less(a, c)
  {
    if a != "" && a[0] == b[0] && b[0] == c[0] {
      LessTransitive(a[1..], b[1..], c[1..]);
    }
  }

  ghost predicate Increasing(rs: seq<DeviceAuth>) {
    forall i, j :: 0 <= i < j < |rs| ==> Less(rs[i].id, rs[j].id)
  }

  predicate DistinctIds(rs: seq<DeviceAuth>) {
    forall i, j :: 0 <= i < j < |rs| ==> rs[i].id != rs[j].id
  }

  function InsertById(r: DeviceAuth, rs: seq<DeviceAuth>): (out: seq<DeviceAuth>)
    ensures multiset(out) == multiset{r} + multiset(rs)
    ensures forall x :: x in out <==> x == r || x in rs
  {
    if rs == [] then [r]
    else if Less(rs[0].id, r.id) then
      assert rs == [rs[0]] + rs[1..];
      [rs[0]] + InsertById(r, rs[1..])
    else [r] + rs
  }

  function SortById(rs: seq<DeviceAuth>): (out: seq<DeviceAuth>)
    ensures multiset(out) == multiset(rs)
    ensures forall x :: x in out <==> x in rs
  {
    if rs == [] then []
    else
      assert rs == [rs[0]] + rs[1..];
      InsertById(rs[0], SortById(rs[1..]))
  }

  lemma {:induction false} InsertIncreasing(r: DeviceAuth, rs: seq<DeviceAuth>)
    requires Increasing(rs)
    requires forall x :: x in rs ==> x.id != r.id
    ensures Increasing(InsertById(r, rs))
  {
    if rs != [] {
      LessTotal(rs[0].id, r.id);
      if Less(rs[0].id, r.id) {
        InsertIncreasing(r, rs[1..]);
        var tail := InsertById(r, rs[1..]);
        forall j | 0 <= j < |tail| ensures Less(rs[0].id, tail[j].id) {
          assert tail[j] in tail;
        }
      } else {
        forall j | 0 <= j < |rs| ensures Less(r.id, rs[j].id) {
          if j > 0 {
            LessTransitive(r.id, rs[0].id, rs[j].id);
          }
        }
      }
    }
  }

  /** Sorting distinct ids gives the strictly increasing list of the same records. */
  lemma {:induction false} SortIncreasing(rs: seq<DeviceAuth>)
    requires DistinctIds(rs)
    ensures Increasing(SortById(rs))
  {
    if rs != [] {
      SortIncreasing(rs[1..]);
      InsertIncreasing(rs[0], SortById(rs[1..]));
    }
  }

  /** There is only one increasing list of given records, so the listing is determined by them. */
  lemma {:induction false} IncreasingUnique(a: seq<DeviceAuth>, b: seq<DeviceAuth>)
    requires Increasing(a) && Increasing(b)
    requires forall x :: x in a <==> x in b
    ensures a == b
  {
    assert a != [] ==> a[0] in b;
    assert b != [] ==> b[0] in a;
    if a != [] {
      LessTotal(a[0].id, b[0].id);
      assert a[0] == b[0];
      forall x ensures x in a[1..] <==> x in b[1..] {
        if x in a[1..] {
          var i :| 1 <= i < |a| && a[i] == x;
          LessTotal(a[0].id, a[i].id);
          assert x in b;
        }
        if x in b[1..] {
          var i :| 1 <= i < |b| && b[i] == x;
          LessTotal(b[0].id, b[i].id);
          assert x in a;
        }
      }
      IncreasingUnique(a[1..], b[1..]);
    }
  }
}
