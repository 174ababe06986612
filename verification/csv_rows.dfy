/**
 The rows written by the two CSV exports, as lists of fields: the export of
 every viewable applied control, and the audit export of one compliance
 assessment. Quoting and encoding by the CSV writer are not modelled; a
 field is the text the writer is given.
 */
module CsvRows {
  import opened Common
  import opened Text

  // -------------------------------------------------------- applied controls

  datatype AppliedControl = AppliedControl(
    id: string,
    name: string,
    description: string,
    category: string,
    csfFunction: string,
    status: string,
    eta: string,
    ownerEmails: seq<string>)

  const ControlColumns: seq<string> :=
    ["internal_id", "name", "description", "category", "csf_function", "status", "eta", "owner"]

  /** Reference reading of a control under a column of the header. */
  function ControlCell(c: AppliedControl, column: string): string
  {
    if column == "internal_id" then c.id
    else if column == "name" then c.name
    else if column == "description" then c.description
    else if column == "category" then c.category
    else if column == "csf_function" then c.csfFunction
    else if column == "status" then c.status
    else if column == "eta" then c.eta
    else if column == "owner" then Join(c.ownerEmails, ',')
    else ""
  }

  /**
   The row of one control: the seven fixed fields, then the owners' emails
   joined by commas when it has owners. Each field sits under its column.
   */
  function ControlRow(c: AppliedControl): (row: seq<string>)
    ensures |row| == if |c.ownerEmails| > 0 then 8 else 7
    ensures forall i :: 0 <= i < |row| ==> row[i] == ControlCell(c, ControlColumns[i])
  {
    var fixed := [c.id, c.name, c.description, c.category, c.csfFunction, c.status, c.eta];
    if |c.ownerEmails| > 0 then fixed + [Join(c.ownerEmails, ',')] else fixed
  }

  /** The owner field gives the emails back as long as none contains a comma. */
  lemma OwnersRecoverable(c: AppliedControl)
    requires |c.ownerEmails| > 0
    requires forall i :: 0 <= i < |c.ownerEmails| ==> ',' !in c.ownerEmails[i]
    ensures Split(ControlRow(c)[7], ',') == c.ownerEmails
  {
    SplitJoin(c.ownerEmails, ',');
  }

  /** An email with a comma in it is cut in two by a reader that splits the owner field. */
  lemma CommaInEmailIsAmbiguous()
    ensures var c := AppliedControl("1", "", "", "", "", "", "", ["a,b@x"]);
      Split(ControlRow(c)[7], ',') != c.ownerEmails
  {
    var c := AppliedControl("1", "", "", "", "", "", "", ["a,b@x"]);
    assert Join(c.ownerEmails, ',') == "a,b@x";
    var pieces := Split("a,b@x", ',');
    assert Count("a,b@x", ',') == 1 by {
      assert "a,b@x"[1..] == ",b@x";
      assert ",b@x"[1..] == "b@x";
      assert Count("b@x", ',') == 0 by {
        assert "b@x"[1..] == "@x";
        assert "@x"[1..] == "x";
        assert "x"[1..] == "";
      }
    }
    assert |pieces| == 2;
  }

  function CountVisible(controls: seq<AppliedControl>, viewable: set<string>): nat
  {
    if |controls| == 0 then 0
    else CountVisible(controls[..|controls| - 1], viewable) + (if controls[|controls| - 1].id in viewable then 1 else 0)
  }

  /** `row` is the row of one of the first `n` controls that the user may view. */
  predicate FromVisible(controls: seq<AppliedControl>, n: nat, viewable: set<string>, row: seq<string>)
    requires n <= |controls|
  {
    exists j :: 0 <= j < n && controls[j].id in viewable && row == ControlRow(controls[j])
  }

  /** Every viewable one of the first `n` controls has its row after the header. */
  predicate AllListed(controls: seq<AppliedControl>, n: nat, viewable: set<string>, rows: seq<seq<string>>)
    requires n <= |controls| && |rows| >= 1
  {
    forall j :: 0 <= j < n && controls[j].id in viewable ==> ControlRow(controls[j]) in rows[1..]
  }

  /**
   `export_csv`: the header, then one row per control whose id the user may
   view, and no other row.
   */
  method ExportControls(controls: seq<AppliedControl>, viewable: set<string>) returns (rows: seq<seq<string>>)
    ensures |rows| == 1 + CountVisible(controls, viewable)
    ensures rows[0] == ControlColumns
    ensures forall k :: 1 <= k < |rows| ==> FromVisible(controls, |controls|, viewable, rows[k])
    ensures AllListed(controls, |controls|, viewable, rows)
  {
    rows := [ControlColumns];
    var i := 0;
    while i < |controls|
      invariant 0 <= i <= |controls|
      invariant |rows| == 1 + CountVisible(controls[..i], viewable)
      invariant rows[0] == ControlColumns
      invariant forall k :: 1 <= k < |rows| ==> FromVisible(controls, i, viewable, rows[k])
      invariant AllListed(controls, i, viewable, rows)
    {
      assert controls[..i + 1][..i] == controls[..i];
      var before := rows;
      if controls[i].id in viewable {
        rows := rows + [ControlRow(controls[i])];
        assert rows[1..] == before[1..] + [ControlRow(controls[i])];
      }
      forall k | 1 <= k < |rows|
        ensures FromVisible(controls, i + 1, viewable, rows[k])
      {
        if k < |before| {
          assert FromVisible(controls, i, viewable, before[k]);
        } else {
          assert rows[k] == ControlRow(controls[i]);
        }
      }
      i := i + 1;
    }
    assert controls[..i] == controls;
  }

  // ---------------------------------------------- compliance assessment audit

  datatype RequirementNode = RequirementNode(refId: string, name: string, description: string, assessable: bool)

  datatype RequirementAssessment = RequirementAssessment(
    requirement: RequirementNode,
    result: string,
    status: string,
    score: string,
    observation: string)

  const AuditColumns: seq<string> :=
    ["ref_id", "description", "compliance_result", "progress", "score", "observations"]

  const PermissionDenied := "Permission denied"

  /** The text of a requirement: its description, or its name when it has none. */
  function RequirementText(n: RequirementNode): (t: string)
    ensures |t| == 0 ==> |n.description| == 0 && |n.name| == 0
    ensures |n.description| > 0 ==> t == n.description
    ensures |n.description| == 0 ==> t == n.name
  {
    if |n.description| > 0 then n.description else n.name
  }

  /** Reference reading of an assessment under a column of the header. */
  function AuditCell(ra: RequirementAssessment, column: string): string
  {
    if column == "ref_id" then ra.requirement.refId
    else if column == "description" then RequirementText(ra.requirement)
    else if column == "compliance_result" then ra.result
    else if column == "progress" then ra.status
    else if column == "score" then ra.score
    else if column == "observations" then ra.observation
    else ""
  }

  /**
   The row of one requirement assessment: the reference and the text, then
   result, status, score and observation only for an assessable node.
   */
  function AuditRow(ra: RequirementAssessment): (row: seq<string>)
    ensures |row| == if ra.requirement.assessable then 6 else 2
    ensures forall i :: 0 <= i < |row| ==> row[i] == AuditCell(ra, AuditColumns[i])
  {
    var head := [ra.requirement.refId, RequirementText(ra.requirement)];
    if ra.requirement.assessable then head + [ra.result, ra.status, ra.score, ra.observation] else head
  }

  function AuditRows(assessments: seq<RequirementAssessment>): (rows: seq<seq<string>>)
    ensures |rows| == |assessments|
    ensures forall i :: 0 <= i < |rows| ==> rows[i] == AuditRow(assessments[i])
  {
    if |assessments| == 0 then [] else [AuditRow(assessments[0])] + AuditRows(assessments[1..])
  }

  /**
   `compliance_assessment_csv`: 403 unless the assessment is viewable,
   otherwise the header and one row per requirement assessment in order.
   */
  function ComplianceAssessmentCsv(pk: string, viewable: set<string>, assessments: seq<RequirementAssessment>): (r: Response<seq<seq<string>>>)
    ensures r.Error? <==> pk !in viewable
    ensures r.Error? ==> r == Error(Forbidden, PermissionDenied)
    ensures r.Ok? ==> |r.value| == |assessments| + 1 && r.value[0] == AuditColumns
    ensures r.Ok? ==> forall i :: 0 <= i < |assessments| ==>
      |r.value[i + 1]| == (if assessments[i].requirement.assessable then 6 else 2)
      && forall j :: 0 <= j < |r.value[i + 1]| ==> r.value[i + 1][j] == AuditCell(assessments[i], AuditColumns[j])
  {
    if pk in viewable then Ok([AuditColumns] + AuditRows(assessments))
    else Error(Forbidden, PermissionDenied)
  }
}
