/**
 The last-administrator guard of the user endpoints: the only administrator
 may neither be deleted nor lose the administrator group through an update.
 A user is an administrator when the administrator group ("BI-UG-ADM") is
 among their groups.
 */
module Users {
  import opened Common
  import opened Text
  import opened Uuids
  import opened RequestData

  type UserId = string
  type GroupId = string

  /** Every user with their group ids, and the id of the administrator group. */
  datatype Directory = Directory(groups: map<UserId, set<GroupId>>, adminGroup: GroupId)

  const RemoveOnlyAdminGroup := "attemptToRemoveOnlyAdminUserGroup"
  const DeleteOnlyAdmin := "attemptToDeleteOnlyAdminAccountError"
  const NoSuchUser := "Not found."
  const MissingUserGroups := "KeyError: user_groups"

  predicate IsAdmin(d: Directory, u: UserId)
  {
    u in d.groups && d.adminGroup in d.groups[u]
  }

  function Admins(d: Directory): set<UserId>
  {
    set u | u in d.groups && d.adminGroup in d.groups[u]
  }

  function AsSet(xs: seq<GroupId>): set<GroupId>
  {
    set x | x in xs
  }

  /**
   `update`: the target's groups become `newGroups` (the `user_groups` field;
   `None` when the request has none and the groups stay as they were).
   */
  function Update(d: Directory, target: UserId, newGroups: Option<seq<GroupId>>): (r: Response<Directory>)
    ensures target !in d.groups ==> r == Error(NotFound, NoSuchUser)
    ensures target in d.groups && IsAdmin(d, target) && |Admins(d)| == 1 && newGroups.None? ==>
      r == Error(ServerError, MissingUserGroups)
    ensures (target in d.groups && IsAdmin(d, target) && |Admins(d)| == 1 && newGroups.Some?
             && d.adminGroup !in newGroups.value) ==> r == Error(Forbidden, RemoveOnlyAdminGroup)
    ensures target in d.groups
            && !(IsAdmin(d, target) && |Admins(d)| == 1 && (newGroups.None? || d.adminGroup !in newGroups.value)) ==>
      && r.Ok?
      && r.value.adminGroup == d.adminGroup
      && r.value.groups.Keys == d.groups.Keys
      && (forall u :: u in d.groups && u != target ==> r.value.groups[u] == d.groups[u])
    ensures r.Ok? ==>
      && target in d.groups
      && target in r.value.groups
      && r.value.groups[target] == (if newGroups.Some? then AsSet(newGroups.value) else d.groups[target])
  {
    if target !in d.groups then Error(NotFound, NoSuchUser)
    else if IsAdmin(d, target) && |Admins(d)| == 1 && newGroups.None? then
      Error(ServerError, MissingUserGroups)
    else if IsAdmin(d, target) && |Admins(d)| == 1 && d.adminGroup !in newGroups.value then
      Error(Forbidden, RemoveOnlyAdminGroup)
    else Ok(Assign(d, target, newGroups))
  }

  /**
   `update` as evidently intended: a request without `user_groups` cannot
   take the administrator group away, so it is let through unchanged.
   */
  function UpdateCorrected(d: Directory, target: UserId, newGroups: Option<seq<GroupId>>): (r: Response<Directory>)
    ensures target !in d.groups ==> r == Error(NotFound, NoSuchUser)
    ensures target in d.groups && newGroups.None? ==> r == Ok(d)
    ensures newGroups.Some? ==> r == Update(d, target, newGroups)
  {
    if target in d.groups && newGroups.None? then
      assert d.groups[target := d.groups[target]] == d.groups;
      Ok(Assign(d, target, None))
    else Update(d, target, newGroups)
  }

  /**
   As written, the sole administrator's PUT or PATCH without `user_groups`
   (one that only changes, say, the name) ends in `KeyError`.
   */
  lemma SoleAdminNeedsUserGroups(d: Directory, target: UserId, patch: bool)
    requires IsAdmin(d, target) && |Admins(d)| == 1
    ensures UpdateRequest(d, target, None, patch) == Error(ServerError, MissingUserGroups)
  {
  }

  /** Corrected, every update of a known user without `user_groups` succeeds, and accepted updates keep an administrator. */
  lemma UpdateCorrectedKeepsAnAdmin(d: Directory, target: UserId, newGroups: Option<seq<GroupId>>)
    requires Admins(d) != {}
    ensures target in d.groups && newGroups.None? ==> UpdateCorrected(d, target, newGroups).Ok?
    ensures UpdateCorrected(d, target, newGroups).Ok? ==> Admins(UpdateCorrected(d, target, newGroups).value) != {}
  {
    if newGroups.Some? && UpdateCorrected(d, target, newGroups).Ok? {
      UpdateKeepsAnAdmin(d, target, newGroups);
    }
  }

  /** The directory after the serializer writes `groups` (when given) as the target's groups. */
  function Assign(d: Directory, target: UserId, groups: Option<seq<GroupId>>): Directory
    requires target in d.groups
  {
    d.(groups := d.groups[target := if groups.Some? then AsSet(groups.value) else d.groups[target]])
  }

  /**
   The `user_groups` list as `_process_request_data` leaves it: one string
   matching the UUID list pattern becomes its UUIDs, one empty string becomes
   the empty list, any other list stays.
   */
  function NormalizedGroups(raw: seq<GroupId>): (ids: seq<GroupId>)
    ensures |raw| == 1 && MatchesUuidList(raw[0], false) ==>
      |ids| >= 1 && AllUuids(ids, false) && Join(ids, ',') == raw[0]
    ensures |raw| == 1 && raw[0] == "" ==> ids == []
    ensures !(|raw| == 1 && (MatchesUuidList(raw[0], false) || raw[0] == "")) ==> ids == raw
  {
    var v := NormalizeField(List(Strs(raw)));
    assert IsStrList(v);
    assert !IsSingleUuidList(List(Strs(raw))) && !IsSingleFalsy(List(Strs(raw))) ==> Texts(v.items) == raw;
    Texts(v.items)
  }

  function NormalizedField(raw: Option<seq<GroupId>>): Option<seq<GroupId>>
  {
    if raw.Some? then Some(NormalizedGroups(raw.value)) else None
  }

  /**
   `update` as a request reaches it. A PUT meets the guard with the field as
   sent; a PATCH passes through `partial_update` first, so the guard sees the
   normalised field. Either way the serializer stores the normalised field.
   */
  function UpdateRequest(d: Directory, target: UserId, raw: Option<seq<GroupId>>, patch: bool): (r: Response<Directory>)
    ensures r.Error? <==> Update(d, target, if patch then NormalizedField(raw) else raw).Error?
    ensures r.Error? ==> r == Update(d, target, if patch then NormalizedField(raw) else raw)
    ensures r.Ok? ==>
      && target in d.groups
      && r.value.adminGroup == d.adminGroup
      && r.value.groups.Keys == d.groups.Keys
      && (forall u :: u in d.groups && u != target ==> r.value.groups[u] == d.groups[u])
      && r.value.groups[target] == (if raw.Some? then AsSet(NormalizedGroups(raw.value)) else d.groups[target])
  {
    var seen := if patch then NormalizedField(raw) else raw;
    var checked := Update(d, target, seen);
    if checked.Error? then checked else Ok(Assign(d, target, NormalizedField(raw)))
  }

  /**
   The guard applied after normalisation, whatever the method: what a PUT
   of the form shape would need to be answered like the matching PATCH.
   */
  function UpdateRequestCorrected(d: Directory, target: UserId, raw: Option<seq<GroupId>>, patch: bool): (r: Response<Directory>)
    ensures r == Update(d, target, NormalizedField(raw))
  {
    var checked := Update(d, target, NormalizedField(raw));
    if checked.Error? then checked else Ok(Assign(d, target, NormalizedField(raw)))
  }

  /** A PATCH is exactly the guarded update of the normalised field. */
  lemma PatchUpdatesNormalizedField(d: Directory, target: UserId, raw: Option<seq<GroupId>>)
    ensures UpdateRequest(d, target, raw, true) == Update(d, target, NormalizedField(raw))
  {
  }

  /** With the guard after normalisation, a PUT and a PATCH of the same field are answered alike. */
  lemma CorrectedPutIsPatch(d: Directory, target: UserId, raw: Option<seq<GroupId>>)
    ensures UpdateRequestCorrected(d, target, raw, false) == UpdateRequestCorrected(d, target, raw, true)
    ensures UpdateRequestCorrected(d, target, raw, true) == UpdateRequest(d, target, raw, true)
  {
  }

  /** The form shape of two UUIDs in one string normalises to the two UUIDs. */
  lemma FormPairSplits(a: string, b: string)
    requires IsUuid(a, false) && IsUuid(b, false)
    ensures NormalizedGroups([a + "," + b]) == [a, b]
  {
    UuidHasNoComma(a, false);
    UuidHasNoComma(b, false);
    assert Join([a, b], ',') == a + "," + b;
    SplitJoin([a, b], ',');
    MatchesIffAllPiecesUuids(a + "," + b, false);
    var ids := NormalizedGroups([a + "," + b]);
    forall i | 0 <= i < |ids|
      ensures ',' !in ids[i]
    {
      UuidHasNoComma(ids[i], false);
    }
    SplitJoin(ids, ',');
  }

  /**
   The sole administrator sending the administrator group and one more group
   in the form shape is refused on a PUT, although the group is kept, and
   accepted on a PATCH.
   */
  lemma PutAndPatchDisagree(d: Directory, target: UserId, other: GroupId)
    requires IsAdmin(d, target) && |Admins(d)| == 1
    requires IsUuid(d.adminGroup, false) && IsUuid(other, false)
    ensures UpdateRequest(d, target, Some([d.adminGroup + "," + other]), false) == Error(Forbidden, RemoveOnlyAdminGroup)
    ensures var r := UpdateRequest(d, target, Some([d.adminGroup + "," + other]), true);
      r.Ok? && r.value.groups[target] == {d.adminGroup, other}
  {
    var sent := d.adminGroup + "," + other;
    assert |sent| == 73;
    assert d.adminGroup !in [sent];
    FormPairSplits(d.adminGroup, other);
    assert AsSet([d.adminGroup, other]) == {d.adminGroup, other};
  }

  /** The join of two or more pieces contains the separator. */
  lemma JoinOfSeveralHasSeparator(pieces: seq<string>, sep: char)
    requires |pieces| >= 2
    ensures sep in Join(pieces, sep)
  {
    var j := Join(pieces, sep);
    assert j[|pieces[0]|] == sep;
  }

  /** A comma-free, non-empty administrator group survives normalisation of any list holding it. */
  lemma NormalizationKeeps(raw: seq<GroupId>, g: GroupId)
    requires g != "" && ',' !in g && g in raw
    ensures g in NormalizedGroups(raw)
  {
    var ids := NormalizedGroups(raw);
    if |raw| == 1 && MatchesUuidList(raw[0], false) {
      assert raw[0] == g;
      if |ids| >= 2 {
        JoinOfSeveralHasSeparator(ids, ',');
      }
      assert ids == [g];
    }
  }

  /** An accepted request, PUT or PATCH, never leaves the system without an administrator. */
  lemma UpdateRequestKeepsAnAdmin(d: Directory, target: UserId, raw: Option<seq<GroupId>>, patch: bool)
    requires d.adminGroup != "" && ',' !in d.adminGroup
    requires Admins(d) != {}
    requires UpdateRequest(d, target, raw, patch).Ok?
    ensures Admins(UpdateRequest(d, target, raw, patch).value) != {}
  {
    if patch {
      UpdateKeepsAnAdmin(d, target, NormalizedField(raw));
    } else if IsAdmin(d, target) && |Admins(d)| == 1 {
      NormalizationKeeps(raw.value, d.adminGroup);
      assert target in Admins(UpdateRequest(d, target, raw, patch).value);
    } else {
      var a :| a in Admins(d);
      if a == target {
        assert IsAdmin(d, target);
        assert |Admins(d)| >= 2;
        a := AnotherAdmin(d, target);
      }
      assert a in Admins(UpdateRequest(d, target, raw, patch).value);
    }
  }

  /** `destroy`: the target is removed unless it is the only administrator. */
  function Destroy(d: Directory, target: UserId): (r: Response<Directory>)
    ensures target !in d.groups ==> r == Error(NotFound, NoSuchUser)
    ensures IsAdmin(d, target) && |Admins(d)| == 1 ==> r == Error(Forbidden, DeleteOnlyAdmin)
    ensures target in d.groups && !(IsAdmin(d, target) && |Admins(d)| == 1) ==>
      && r.Ok?
      && r.value.adminGroup == d.adminGroup
      && r.value.groups.Keys == d.groups.Keys - {target}
      && (forall u :: u in r.value.groups ==> r.value.groups[u] == d.groups[u])
  {
    if target !in d.groups then Error(NotFound, NoSuchUser)
    else if IsAdmin(d, target) && |Admins(d)| == 1 then Error(Forbidden, DeleteOnlyAdmin)
    else Ok(d.(groups := d.groups - {target}))
  }

  /** When the target is the only administrator, no one else is one. */
  lemma SoleAdmin(d: Directory, target: UserId)
    requires IsAdmin(d, target) && |Admins(d)| == 1
    ensures Admins(d) == {target}
  {
    assert target in Admins(d);
    assert |Admins(d) - {target}| == 0;
  }

  /** Removing one administrator from two or more leaves another one. */
  lemma AnotherAdmin(d: Directory, target: UserId) returns (other: UserId)
    requires |Admins(d)| >= 2
    ensures other in Admins(d) && other != target
  {
    var a :| a in Admins(d);
    if a != target {
      return a;
    }
    var rest := Admins(d) - {a};
    assert |rest| >= 1;
    other :| other in rest;
  }

  /** An accepted update never leaves the system without an administrator. */
  lemma UpdateKeepsAnAdmin(d: Directory, target: UserId, newGroups: Option<seq<GroupId>>)
    requires Admins(d) != {}
    requires Update(d, target, newGroups).Ok?
    ensures Admins(Update(d, target, newGroups).value) != {}
  {
    var d' := Update(d, target, newGroups).value;
    if IsAdmin(d, target) && |Admins(d)| == 1 {
      assert d.adminGroup in d'.groups[target];
      assert target in Admins(d');
    } else if IsAdmin(d, target) {
      assert |Admins(d)| >= 2 by {
        assert target in Admins(d);
      }
      var other := AnotherAdmin(d, target);
      assert other in Admins(d');
    } else {
      var a :| a in Admins(d);
      if a == target {
        assert false;
      }
      assert a in Admins(d');
    }
  }

  /** An accepted deletion never leaves the system without an administrator. */
  lemma DestroyKeepsAnAdmin(d: Directory, target: UserId)
    requires Admins(d) != {}
    requires Destroy(d, target).Ok?
    ensures Admins(Destroy(d, target).value) != {}
  {
    var d' := Destroy(d, target).value;
    if IsAdmin(d, target) {
      assert |Admins(d)| >= 2 by {
        assert target in Admins(d);
      }
      var other := AnotherAdmin(d, target);
      assert other in Admins(d');
    } else {
      var a :| a in Admins(d);
      assert a != target;
      assert a in Admins(d');
    }
  }
}
