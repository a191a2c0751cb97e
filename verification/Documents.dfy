/** Documents as MongoDB keeps them: a field is present or absent, `omitempty` drops Go's zero
    values on the way in, a selector matches the documents that agree with it on every field it
    carries, and `$set` replaces exactly the fields it carries. Each operation here is what the
    server does to the collection, atomically for one document. */
module Documents {
  import opened Wrappers
  import opened Model

  datatype Doc = Doc(
    id: Option<string>,
    deviceId: Option<string>,
    deviceIdentity: Option<string>,
    key: Option<string>,
    status: Option<string>,
    attributes: Option<Attributes>,
    requestTime: Option<int>)

  const NOTHING := Doc(None, None, None, None, None, None, None)

  function OmitEmpty(s: string): Option<string> {
    if s == "" then None else Some(s)
  }

  function Text(s: Option<string>): string {
    if s.Some? then s.value else ""
  }

  function Marshal(d: DeviceAuth): Doc {
    Doc(OmitEmpty(d.id), OmitEmpty(d.deviceId), OmitEmpty(d.deviceIdentity), OmitEmpty(d.key),
        OmitEmpty(d.status), if d.attributes == map[] then None else Some(d.attributes), d.requestTime)
  }

  function Unmarshal(d: Doc): DeviceAuth {
    DeviceAuth(Text(d.id), Text(d.deviceId), Text(d.deviceIdentity), Text(d.key), Text(d.status),
               if d.attributes.Some? then d.attributes.value else map[], d.requestTime)
  }

  predicate Agrees<T(==)>(selected: Option<T>, stored: Option<T>) {
    selected.None? || selected == stored
  }

  predicate Matches(sel: Doc, d: Doc) {
    && Agrees(sel.id, d.id) && Agrees(sel.deviceId, d.deviceId)
    && Agrees(sel.deviceIdentity, d.deviceIdentity) && Agrees(sel.key, d.key)
    && Agrees(sel.status, d.status) && Agrees(sel.attributes, d.attributes)
    && Agrees(sel.requestTime, d.requestTime)
  }

  function Or<T>(update: Option<T>, stored: Option<T>): Option<T> {
    if update.Some? then update else stored
  }

  /** The `$set` operator. */
  function SetFields(d: Doc, u: Doc): Doc {
    Doc(Or(u.id, d.id), Or(u.deviceId, d.deviceId), Or(u.deviceIdentity, d.deviceIdentity),
        Or(u.key, d.key), Or(u.status, d.status), Or(u.attributes, d.attributes),
        Or(u.requestTime, d.requestTime))
  }

  /** The selector `{"id": id}`, which keeps an empty id. */
  function ById(id: string): Doc {
    NOTHING.(id := Some(id))
  }

  /** The unique index on `id`; it also counts an absent id as a value. */
  predicate UniqueIds(docs: seq<Doc>) {
    forall i, j :: 0 <= i < j < |docs| ==> docs[i].id != docs[j].id
  }

  /** Position of the first match, or the collection's length. */
  function FirstMatch(docs: seq<Doc>, sel: Doc): (k: nat)
    ensures k <= |docs|
    ensures k < |docs| ==> Matches(sel, docs[k])
    ensures forall j :: 0 <= j < k ==> !Matches(sel, docs[j])
  {
    if docs == [] then 0
    else if Matches(sel, docs[0]) then 0
    else 1 + FirstMatch(docs[1..], sel)
  }

  function Find(docs: seq<Doc>, sel: Doc): (found: seq<Doc>)
    ensures forall d :: d in found <==> d in docs && Matches(sel, d)
  {
    if docs == [] then []
    else (if Matches(sel, docs[0]) then [docs[0]] else []) + Find(docs[1..], sel)
  }

  predicate Goes(sel: Doc, spared: set<string>, d: Doc) {
    Matches(sel, d) && Text(d.id) !in spared
  }

  /** What `RemoveAll` leaves: every document that does not match, and the spared ones it did not get
      to; none is spared when it finishes. */
  function Without(docs: seq<Doc>, sel: Doc, spared: set<string>): (left: seq<Doc>)
    ensures forall d :: d in left <==> d in docs && !Goes(sel, spared, d)
  {
    if docs == [] then []
    else (if Goes(sel, spared, docs[0]) then [] else [docs[0]]) + Without(docs[1..], sel, spared)
  }

  function UpdateSet(docs: seq<Doc>, sel: Doc, u: Doc): seq<Doc> {
    var k := FirstMatch(docs, sel);
    if k < |docs| then docs[k := SetFields(docs[k], u)] else docs
  }

  /** `Upsert` with `$set`: a missing document is made of the selector's fields and the update's. */
  function UpsertSet(docs: seq<Doc>, sel: Doc, u: Doc): seq<Doc> {
    var k := FirstMatch(docs, sel);
    if k < |docs| then docs[k := SetFields(docs[k], u)] else docs + [SetFields(sel, u)]
  }

  /** `Upsert` with a whole document: the first match is replaced in its place. */
  function UpsertReplace(docs: seq<Doc>, sel: Doc, d: Doc): seq<Doc> {
    var k := FirstMatch(docs, sel);
    if k < |docs| then docs[k := d] else docs + [d]
  }

  function RemoveFirst(docs: seq<Doc>, sel: Doc): seq<Doc> {
    var k := FirstMatch(docs, sel);
    if k < |docs| then docs[..k] + docs[k + 1..] else docs
  }

  lemma RoundTrip(d: DeviceAuth)
    ensures Unmarshal(Marshal(d)) == d
  {
  }

  /** Query by example: a marshalled example selects exactly the records that carry every
      non-empty field of the example; an all-empty example selects everything. */
  lemma QueryByExample(example: DeviceAuth, d: Doc)
    ensures Matches(Marshal(example), d) <==>
            var r := Unmarshal(d);
            && (example.id == "" || r.id == example.id)
            && (example.deviceId == "" || r.deviceId == example.deviceId)
            && (example.deviceIdentity == "" || r.deviceIdentity == example.deviceIdentity)
            && (example.key == "" || r.key == example.key)
            && (example.status == "" || r.status == example.status)
            && (example.attributes == map[] || r.attributes == example.attributes)
            && (example.requestTime == None || r.requestTime == example.requestTime)
  {
    assert Marshal(example).attributes.None? <==> example.attributes == map[];
  }

  lemma FirstMatchUnique(docs: seq<Doc>, sel: Doc, k: nat)
    requires k < |docs| && Matches(sel, docs[k])
    requires forall j :: 0 <= j < |docs| && j != k ==> !Matches(sel, docs[j])
    ensures FirstMatch(docs, sel) == k
  {
    if FirstMatch(docs, sel) != k {
      assert false;
    }
  }

  /** `RemoveAll` keeps the order of what it leaves, and when it finishes, what it leaves plus what
      it removes is the whole collection. */
  lemma {:induction false} WithoutKeepsOrder(docs: seq<Doc>, sel: Doc, spared: set<string>, tail: seq<Doc>)
    ensures Without(docs + tail, sel, spared) == Without(docs, sel, spared) + Without(tail, sel, spared)
    ensures |Without(docs, sel, {})| + |Find(docs, sel)| == |docs|
  {
    if docs == [] {
      assert docs + tail == tail;
    } else {
      assert (docs + tail)[1..] == docs[1..] + tail;
      WithoutKeepsOrder(docs[1..], sel, spared, tail);
    }
  }

  lemma {:induction false} WithoutUnique(docs: seq<Doc>, sel: Doc, spared: set<string>)
    requires UniqueIds(docs)
    ensures UniqueIds(Without(docs, sel, spared))
  {
    if docs != [] {
      WithoutUnique(docs[1..], sel, spared);
      var rest := Without(docs[1..], sel, spared);
      forall i | 0 <= i < |rest| ensures docs[0].id != rest[i].id {
        assert rest[i] in docs[1..];
      }
    }
  }
}
