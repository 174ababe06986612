/**
 Normalisation of incoming form data before create/update/partial_update/
 destroy. Form submissions deliver every field as a one-element list; a
 comma-separated UUID string in that element becomes the list of UUIDs, an
 empty (falsy) element becomes the empty list, and everything else stays.
 */
module RequestData {
  import opened Text
  import opened Uuids

  /** A decoded request value: a string, a list, or any other scalar with its truthiness. */
  datatype Value = Str(s: string) | List(items: seq<Value>) | Scalar(truthy: bool)

  /** Python truthiness of a value. */
  predicate Truthy(v: Value)
  {
    match v
    case Str(s) => |s| > 0
    case List(items) => |items| > 0
    case Scalar(t) => t
  }

  /** The field holds exactly one string matching the comma-separated UUID pattern. */
  predicate IsSingleUuidList(v: Value)
  {
    v.List? && |v.items| == 1 && v.items[0].Str? && MatchesUuidList(v.items[0].s, false)
  }

  /** The field holds exactly one falsy element. */
  predicate IsSingleFalsy(v: Value)
  {
    v.List? && |v.items| == 1 && !Truthy(v.items[0])
  }

  function Strs(pieces: seq<string>): (vs: seq<Value>)
    ensures |vs| == |pieces|
    ensures forall i :: 0 <= i < |vs| ==> vs[i] == Str(pieces[i])
  {
    if |pieces| == 0 then [] else [Str(pieces[0])] + Strs(pieces[1..])
  }

  /** A list of strings (the only shape a split field can take). */
  predicate IsStrList(v: Value)
  {
    v.List? && forall i :: 0 <= i < |v.items| ==> v.items[i].Str?
  }

  function Texts(items: seq<Value>): (ts: seq<string>)
    requires forall i :: 0 <= i < |items| ==> items[i].Str?
    ensures |ts| == |items|
    ensures forall i :: 0 <= i < |ts| ==> ts[i] == items[i].s
  {
    if |items| == 0 then [] else [items[0].s] + Texts(items[1..])
  }

  /** How `_process_request_data` rewrites one field. */
  function NormalizeField(v: Value): (r: Value)
    ensures IsSingleUuidList(v) ==>
      && IsStrList(r) && |r.items| >= 1
      && AllUuids(Texts(r.items), false)
      && Join(Texts(r.items), ',') == v.items[0].s
    ensures !IsSingleUuidList(v) && IsSingleFalsy(v) ==> r == List([])
    ensures !IsSingleUuidList(v) && !IsSingleFalsy(v) ==> r == v
  {
    if v.List? && |v.items| == 1 then
      var e := v.items[0];
      if e.Str? && MatchesUuidList(e.s, false) then
        var pieces := Split(e.s, ',');
        MatchesIffAllPiecesUuids(e.s, false);
        JoinSplit(e.s, ',');
        assert Texts(Strs(pieces)) == pieces;
        List(Strs(pieces))
      else if !Truthy(e) then List([])
      else v
    else v
  }

  /** The request data after normalisation: the same field names, each field rewritten on its own. */
  function ProcessRequestData(data: map<string, Value>): (r: map<string, Value>)
    ensures r.Keys == data.Keys
    ensures forall f :: f in data ==> r[f] == NormalizeField(data[f])
  {
    map f | f in data :: NormalizeField(data[f])
  }

  /**
   The split is determined by the string: its pieces are the UUIDs that,
   joined with `,`, give the string back, and no other list of UUIDs does.
   */
  lemma SplitFieldIsUnique(v: Value, pieces: seq<string>)
    requires IsSingleUuidList(v)
    requires |pieces| >= 1 && AllUuids(pieces, false)
    requires Join(pieces, ',') == v.items[0].s
    ensures NormalizeField(v) == List(Strs(pieces))
  {
    forall i | 0 <= i < |pieces|
      ensures ',' !in pieces[i]
    {
      UuidHasNoComma(pieces[i], false);
    }
    SplitJoin(pieces, ',');
  }

  /** Normalising a field twice is the same as normalising it once. */
  lemma NormalizeFieldIdempotent(v: Value)
    ensures NormalizeField(NormalizeField(v)) == NormalizeField(v)
  {
    var r := NormalizeField(v);
    if IsSingleUuidList(v) {
      if |r.items| == 1 {
        var s := v.items[0].s;
        var u := r.items[0].s;
        assert Join(Texts(r.items), ',') == u;
        assert u == s;
        assert IsSingleUuidList(r);
        assert Texts(r.items) == [u];
        SplitFieldIsUnique(r, [u]);
        assert Strs([u]) == [Str(u)];
        assert r == List([Str(u)]);
      }
    }
  }

  /**
   Running the normaliser twice (a PATCH passes through both
   partial_update and update) leaves the data as one run does.
   */
  lemma ProcessRequestDataIdempotent(data: map<string, Value>)
    ensures ProcessRequestData(ProcessRequestData(data)) == ProcessRequestData(data)
  {
    var once := ProcessRequestData(data);
    forall f | f in once
      ensures NormalizeField(once[f]) == once[f]
    {
      NormalizeFieldIdempotent(data[f]);
    }
  }
}
