/**
 The query-parameter check of the risk-assessment composer endpoint: the
 `risk_assessment` parameter must be present and be a `,`-separated list of
 lower-case UUIDs; the list of pieces is then passed on unchanged.
 */
module Composer {
  import opened Common
  import opened Text
  import opened Uuids

  const MissingParameter := "This endpoint requires the 'risk_assessment' query parameter"
  const InvalidList := "Invalid UUID list"

  /** The validation prefix of `get_composer_data`: the ids to compile, or a 400. */
  function ValidateRiskAssessments(param: Option<string>): (r: Response<seq<string>>)
    ensures param.None? ==> r == Error(BadRequest, MissingParameter)
    ensures param.Some? && !MatchesUuidList(param.value, true) ==> r == Error(BadRequest, InvalidList)
    ensures param.Some? && MatchesUuidList(param.value, true) ==>
      && r.Ok?
      && |r.value| >= 1
      && AllUuids(r.value, true)
      && Join(r.value, ',') == param.value
  {
    match param
    case None => Error(BadRequest, MissingParameter)
    case Some(s) =>
      var ids := Split(s, ',');
      MatchesIffAllPiecesUuids(s, true);
      JoinSplit(s, ',');
      if forall i :: 0 <= i < |ids| ==> IsUuid(ids[i], true) then Ok(ids)
      else Error(BadRequest, InvalidList)
  }

  /** An empty parameter splits into one empty piece, which is not a UUID. */
  lemma EmptyParameterRejected()
    ensures ValidateRiskAssessments(Some("")) == Error(BadRequest, InvalidList)
  {
    assert !MatchesUuidList("", true);
  }

  /** A trailing comma leaves an empty last piece, so the list is rejected. */
  lemma TrailingCommaRejected(s: string)
    ensures ValidateRiskAssessments(Some(s + [','])) == Error(BadRequest, InvalidList)
  {
    var t := s + [','];
    var ps := Split(t, ',');
    JoinSplit(s, ',');
    MatchesIffAllPiecesUuids(t, true);
    assert Count(t, ',') == Count(s, ',') + 1 by {
      CountAppend(s, [','], ',');
    }
    LastPieceAfterTrailingSeparator(s, ',');
    assert ps[|ps| - 1] == "";
    assert !IsUuid(ps[|ps| - 1], true);
  }

  /**
   Every list the composer accepts would also pass the request-data pattern,
   but not conversely: an upper-case UUID passes only the latter.
   */
  lemma AcceptedListsMatchRequestPattern(s: string)
    ensures ValidateRiskAssessments(Some(s)).Ok? ==> MatchesUuidList(s, false)
    ensures var u := "0A1B2C3D-0000-0000-0000-000000000000";
      MatchesUuidList(u, false) && ValidateRiskAssessments(Some(u)).Error?
  {
    if ValidateRiskAssessments(Some(s)).Ok? {
      LowerListMatchesMixed(s);
    }
    UpperCaseSeparatesThePatterns();
  }
}
