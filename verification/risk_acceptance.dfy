/**
 The rules of the risk-acceptance endpoints: only the designated approver
 may accept, reject or revoke (others get the same answer and nothing
 changes), only the approver may change the justification, and a new
 acceptance is submitted exactly when it names an approver whom the access
 rules allow to approve in the folder of every scenario it covers.
 */
module RiskAcceptances {
  import opened Common

  type UserId = string
  type FolderId = string

  datatype State = Created | Submitted | Accepted | Rejected | Revoked

  datatype Acceptance = Acceptance(state: State, approver: Option<UserId>, justification: Option<string>)

  datatype Decision = Accept | Reject | Revoke

  const JustificationByApproverOnly := "The justification can only be edited by the approver"
  const ApproverNotAllowed := "The approver is not allowed to approve this risk acceptance"

  function Target(d: Decision): State
  {
    match d
    case Accept => Accepted
    case Reject => Rejected
    case Revoke => Revoked
  }

  function Message(d: Decision): string
  {
    match d
    case Accept => "state updated to accepted"
    case Reject => "state updated to rejected"
    case Revoke => "state updated to revoked"
  }

  predicate IsApprover(a: Acceptance, requester: UserId)
  {
    a.approver == Some(requester)
  }

  /** `accept` / `reject` / `revoke`: the new record and the answer's message. */
  function Decide(a: Acceptance, requester: UserId, d: Decision): (r: (Acceptance, string))
    ensures r.1 == Message(d)
    ensures IsApprover(a, requester) ==> r.0.state == Target(d)
    ensures !IsApprover(a, requester) ==> r.0 == a
    ensures r.0.approver == a.approver && r.0.justification == a.justification
  {
    if IsApprover(a, requester) then (a.(state := Target(d)), Message(d)) else (a, Message(d))
  }

  /**
   The answer does not tell the requester whether anything happened: the
   approver and anyone else get the same message.
   */
  lemma DecisionAnswerIsUninformative(a: Acceptance, approver: UserId, other: UserId, d: Decision)
    requires IsApprover(a, approver) && !IsApprover(a, other)
    ensures Decide(a, approver, d).1 == Decide(a, other, d).1
    ensures Decide(a, approver, d).0.state == Target(d)
    ensures Decide(a, other, d).0 == a
  {
  }

  /**
   `update` (also reached by partial updates): a justification different
   from the stored one (`None` when the request carries none) is refused
   unless the requester is the approver.
   */
  function Update(a: Acceptance, requester: UserId, justification: Option<string>): (r: Response<Acceptance>)
    ensures r.Error? <==> justification != a.justification && !IsApprover(a, requester)
    ensures r.Error? ==> r == Error(BadRequest, JustificationByApproverOnly)
    ensures r.Ok? ==> r.value.state == a.state && r.value.approver == a.approver
    ensures r.Ok? && justification.Some? ==> r.value.justification == justification
    ensures r.Ok? && justification.None? ==> r.value.justification == a.justification
  {
    if justification != a.justification && !IsApprover(a, requester) then
      Error(BadRequest, JustificationByApproverOnly)
    else if justification.Some? then Ok(a.(justification := justification))
    else Ok(a)
  }

  /** Whoever succeeds in changing the justification is the approver. */
  lemma OnlyApproverChangesJustification(a: Acceptance, requester: UserId, justification: Option<string>)
    requires Update(a, requester, justification).Ok?
    requires Update(a, requester, justification).value.justification != a.justification
    ensures IsApprover(a, requester)
  {
  }

  /**
   A partial update that leaves the justification out is refused for anyone
   but the approver once a justification is stored.
   */
  lemma OmittedJustificationRefused(a: Acceptance, requester: UserId)
    requires a.justification.Some? && !IsApprover(a, requester)
    ensures Update(a, requester, None) == Error(BadRequest, JustificationByApproverOnly)
  {
  }

  /** Every scenario's folder lets the approver approve (`is_access_allowed`). */
  predicate ApproverAllowedEverywhere(approver: Option<UserId>, folders: seq<FolderId>, allowed: set<(Option<UserId>, FolderId)>)
  {
    forall i :: 0 <= i < |folders| ==> (approver, folders[i]) in allowed
  }

  /**
   `perform_create`: `folders` are the folders of the covered scenarios and
   `allowed` the pairs for which the access rules grant the approve permission.
   */
  function Create(approver: Option<UserId>, justification: Option<string>, folders: seq<FolderId>,
                  allowed: set<(Option<UserId>, FolderId)>): (r: Response<Acceptance>)
    ensures r.Ok? <==> ApproverAllowedEverywhere(approver, folders, allowed)
    ensures r.Error? ==> r == Error(BadRequest, ApproverNotAllowed)
    ensures r.Ok? ==> (r.value.state == Submitted <==> approver.Some?)
    ensures r.Ok? ==> r.value.state in {Created, Submitted}
    ensures r.Ok? ==> r.value.approver == approver && r.value.justification == justification
  {
    if exists i :: 0 <= i < |folders| && (approver, folders[i]) !in allowed then
      Error(BadRequest, ApproverNotAllowed)
    else
      Ok(Acceptance(if approver.Some? then Submitted else Created, approver, justification))
  }
}
