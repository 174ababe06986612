# Decision rules of the GRC back end's view layer, in Dafny

This project models the rules that sit inside the Django REST views of
`backend/core/views.py`. The ORM queries, permission helpers, serializers
and rendering around them are replaced by plain values: sequences of
records, maps and sets. Each rule becomes a pure function or a short
method, and its behaviour is proved about that model.

- `RequestData`: the normalisation of form data run before `create`,
  `update`, `partial_update` and `destroy`.
  - A field that holds one string matching the comma-separated UUID pattern becomes its `,`-pieces.
  - A field that holds one falsy element becomes `[]`.
  - Every other field stays as it was.
- `Uuids` and `Text`: the two UUID regular expressions, and Python's
  `str.split`, `str.join` and ASCII `str.lower`.
  - The normaliser's pattern accepts hex digits of either case.
  - The composer's pattern accepts lower case only.
- `Composer`: the check of the `risk_assessment` query parameter of `get_composer_data`.
- `Choices`: the probability and impact choice maps of a risk scenario.
  - Each level name is keyed by its index, plus the sentinel `-1 ↦ "--"`.
  - Impact keeps at most 64 levels.
- `ActionPlan`: the filing of applied controls into per-status buckets.
  - The JSON action plan files `"--"` under `none` and lower-cases every other status.
  - The PDF action plan files an empty status under `no status` and keeps every other status as it is.
  - An unknown status is a `KeyError`.
- `Users`: the last-administrator guard of the user `update` and `destroy` endpoints.
  - A PUT meets the guard with `user_groups` as sent.
  - A PATCH meets it after `_process_request_data`, since `partial_update` normalises before calling `update`.
- `RiskAcceptances`: the approver-only `accept`, `reject` and `revoke`, the
  justification rule of `update`, and the submitted state set by `perform_create`.
- `Report`: the data assembly of `generate_html`.
  - the ancestor sets of the assessed requirements, walking up `parent_urn`;
  - the forest of requirement nodes, built recursively over children;
  - the `bar_graph` flag;
  - the list of evidences, without duplicates.
- `CsvRows`: the rows, as field lists, of `export_csv` and `compliance_assessment_csv`.

HTTP answers are modelled as `Response<T>`:
- `Ok(value)` stands for a normal answer.
- `Error(status, message)` stands for an error answer.
- An exception escaping a view (a `KeyError`, an `UnboundLocalError`) is
  `Error(500, …)`, which is what Django answers for one.

## Model

| member | source | states |
|---|---|---|
| `Text.JoinSplit` | backend/core/views.py:128 | joining the `,`-pieces of any string with `,` gives the string back |
| `Text.SplitJoin` | backend/core/views.py:1367 | splitting a join of comma-free pieces gives exactly those pieces back |
| `Uuids.MatchesIffAllPiecesUuids` | backend/core/views.py:111-128 | the anchored `UUID(,UUID)*` pattern matches a string exactly when every `,`-piece of it is a UUID of the same digit class, in both directions |
| `Uuids.UuidHasNoComma` | backend/core/views.py:1370 | a UUID never contains a comma, so it is never cut by the split |
| `Uuids.LowerListMatchesMixed` | backend/core/views.py:1368-1374 | every list of lower-case UUIDs also matches the mixed-case request-data pattern |
| `Uuids.UpperCaseSeparatesThePatterns` | backend/core/views.py:111 | an upper-case UUID matches the request-data pattern but not the lower-case one |
| `RequestData.NormalizeField` | backend/core/views.py:124-130 | a single matching string becomes a non-empty list of UUID strings that join back to it; a single falsy element becomes `[]`; any other value is returned unchanged |
| `RequestData.ProcessRequestData` | backend/core/views.py:117-130 | the set of field names is unchanged and each field is normalised on its own |
| `RequestData.SplitFieldIsUnique` | backend/core/views.py:124-128 | the split list is the only list of UUIDs whose join is the original string |
| `RequestData.NormalizeFieldIdempotent` | backend/core/views.py:124-130 | normalising a field twice gives what one normalisation gives |
| `RequestData.ProcessRequestDataIdempotent` | backend/core/views.py:136-142 | running the normaliser twice (`partial_update` then `update`) leaves the request data as one run does |
| `Composer.ValidateRiskAssessments` | backend/core/views.py:1360-1375 | a missing parameter is a 400 asking for it; a list with any piece that is not a lower-case UUID is a 400 "Invalid UUID list"; otherwise the pieces are UUIDs that join back to the parameter |
| `Composer.EmptyParameterRejected` | backend/core/views.py:1367-1375 | an empty parameter splits into `[""]` and is refused as an invalid list |
| `Composer.TrailingCommaRejected` | backend/core/views.py:1367-1375 | any parameter ending in a comma is refused as an invalid list, since its last piece is empty |
| `Composer.AcceptedListsMatchRequestPattern` | backend/core/views.py:1368-1374 | every list the composer accepts passes the request-data pattern, and an upper-case UUID passes that pattern but is refused by the composer |
| `Choices.Enumerate` | backend/core/views.py:944-949 | the keys are exactly `0..n-1` and key `i` holds the `i`-th name |
| `Choices.ProbabilityChoices` | backend/core/views.py:942-951 | the keys are exactly `-1` and the level indexes; `-1` maps to `"--"` and `i` to the `i`-th name |
| `Choices.ImpactChoices` | backend/core/views.py:955-964 | like probability, but only indexes below `min(n, 64)` are keys |
| `Choices.ProbabilityChoicesSize` | backend/core/views.py:942-951 | the probability map has one key per level plus one |
| `Choices.ImpactChoicesSize` | backend/core/views.py:955-964 | the impact map has `min(n, 64) + 1` keys, so never more than 65 |
| `Choices.ImpactIsTruncatedProbability` | backend/core/views.py:942-964 | the impact map is the probability map of the first 64 names; with at most 64 levels the two agree |
| `ActionPlan.Distribute` | backend/core/views.py:1641-1652 | the filing succeeds exactly when every status names a bucket; then the plan has exactly the endpoint's buckets and each holds the controls of its status in input order |
| `ActionPlan.ActionPlanView` | backend/core/views.py:1596-1654 | as written: a non-viewable pk ends in `UnboundLocalError` (500); an unknown status ends in `KeyError` (500); otherwise the filed plan |
| `ActionPlan.ActionPlanViewCorrected` | backend/core/views.py:1596-1654 | as intended: a non-viewable pk is refused with 403; the other cases are as written |
| `ActionPlan.ActionPlanPdfContext` | backend/core/views.py:1704-1754 | a non-viewable pk gets an error body with the default status 200; an unknown status ends in `KeyError`; otherwise the PDF buckets filled as above |
| `ActionPlan.PdfRefusesDashStatus` | backend/core/views.py:1737-1742 | a control with status `"--"`, which the JSON view files under `none`, names no PDF bucket, so the PDF view ends in `KeyError` |
| `ActionPlan.ActionPlanPdfContextCorrected` | backend/core/views.py:1704-1754 | as intended: a non-viewable pk is refused with 403 and `"--"` files under `no status`; otherwise as written |
| `ActionPlan.PdfCorrectedFilesLikeJson` | backend/core/views.py:1649-1652 | corrected, the PDF view files each control status under the JSON view's bucket, `no status` standing for `none` |
| `ActionPlan.PdfCorrectedFilesAll` | backend/core/views.py:1737-1742 | corrected, the PDF view files any controls whose statuses are real or empty, so it never ends in `KeyError` for them |
| `ActionPlan.BucketsPartitionControls` | backend/core/views.py:1649-1652 | the buckets together hold exactly the input controls, each once |
| `ActionPlan.InBucketMembers` | backend/core/views.py:1649-1652 | a bucket holds a control exactly when the control is in the input and its status files under that bucket |
| `ActionPlan.JsonBucketExamples` | backend/core/views.py:1649-1652 | `"--"` files under `none`, `"TO_DO"` under `to_do`, an empty PDF status under `no status`, and `"--"` names no PDF bucket |
| `Users.Update` | backend/core/views.py:1118-1131 | unknown user 404; the sole admin's update without `user_groups` is a `KeyError` (500) and without the admin group a 403; every other update of a known user, the sole admin's that keeps the admin group included, goes through and changes only the target's groups, to the given ones |
| `Users.NormalizedGroups` | backend/core/views.py:124-130 | a one-string `user_groups` list matching the UUID list pattern becomes UUIDs that join back to the string; `[""]` becomes `[]`; any other list stays |
| `Users.UpdateRequest` | backend/core/views.py:136-142 | a PUT meets the guard with the field as sent and a PATCH with the normalised field; an accepted request stores the normalised field as the target's groups and changes no other user |
| `Users.PatchUpdatesNormalizedField` | backend/core/views.py:140-142 | a PATCH is answered exactly as the guarded update of the normalised field |
| `Users.FormPairSplits` | backend/core/views.py:124-128 | one string holding two UUIDs joined by `,` normalises to the two UUIDs |
| `Users.PutAndPatchDisagree` | backend/core/views.py:1123-1131 | the sole admin sending the admin group and one more group in one string is refused with 403 on a PUT, although the admin group is kept, and accepted on a PATCH with both groups stored |
| `Users.UpdateRequestCorrected` | backend/core/views.py:1118-1131 | with the guard applied to the normalised field, a request is answered as the guarded update of that field |
| `Users.CorrectedPutIsPatch` | backend/core/views.py:136-142 | with the guard applied to the normalised field, a PUT and a PATCH are answered alike, and like the PATCH as written |
| `Users.UpdateRequestKeepsAnAdmin` | backend/core/views.py:1118-1131 | an accepted PUT or PATCH never empties a non-empty admin set, for an admin group id without commas |
| `Users.SoleAdminNeedsUserGroups` | backend/core/views.py:1118-1125 | the sole admin's PUT or PATCH without `user_groups` ends in `KeyError` (500) |
| `Users.UpdateCorrected` | backend/core/views.py:1118-1131 | as intended: a request without `user_groups` leaves the directory as it is and is accepted; with the field it is `Users.Update` |
| `Users.UpdateCorrectedKeepsAnAdmin` | backend/core/views.py:1118-1131 | corrected, every update of a known user without `user_groups` is accepted, and no accepted update empties a non-empty admin set |
| `Users.Destroy` | backend/core/views.py:1133-1143 | unknown user 404; the sole admin cannot be deleted (403); otherwise only the target is removed |
| `Users.SoleAdmin` | backend/core/views.py:1120-1123 | an admin count of 1 with the target an admin means the target is the only admin |
| `Users.UpdateKeepsAnAdmin` | backend/core/views.py:1118-1131 | an accepted update never empties a non-empty admin set |
| `Users.DestroyKeepsAnAdmin` | backend/core/views.py:1133-1143 | an accepted deletion never empties a non-empty admin set |
| `RiskAcceptances.Decide` | backend/core/views.py:1034-1050 | the answer's message is fixed per action; the state becomes the action's target only for the approver, and otherwise nothing changes |
| `RiskAcceptances.DecisionAnswerIsUninformative` | backend/core/views.py:1034-1050 | the approver and anyone else get the same message, though only the approver's request changes the state |
| `RiskAcceptances.Update` | backend/core/views.py:1006-1018 | a 400 exactly when the justification differs from the stored one and the requester is not the approver; otherwise state and approver are kept |
| `RiskAcceptances.OnlyApproverChangesJustification` | backend/core/views.py:1006-1018 | whoever changes the justification is the approver |
| `RiskAcceptances.OmittedJustificationRefused` | backend/core/views.py:1006-1018 | a request without a justification is refused for a non-approver once a justification is stored |
| `RiskAcceptances.Create` | backend/core/views.py:1059-1075 | creation succeeds exactly when the approver may approve in every scenario's folder; the new acceptance is submitted exactly when an approver is given |
| `Report.Lookup` | backend/core/views.py:2097 | `node_per_urn` finds the last listed node with the urn, as the dictionary keeps the last entry per key, and finds nothing exactly when no node has it |
| `Report.ChildrenExactly` | backend/core/views.py:2109-2111 | a node is a child of `urn` exactly when it is listed and its parent is `urn` |
| `Report.TopLevelExactly` | backend/core/views.py:2165 | a node is top-level exactly when it is listed and has an empty `parent_urn` |
| `Report.LookupUnique` | backend/core/views.py:2097 | with unique urns, looking up a listed node's urn finds that node |
| `Report.MissingParentReported` | backend/core/views.py:2104-2105 | a parent urn that no node carries ends the walk in the `KeyError` of `node_per_urn[p]` |
| `Report.RootPathIsSimple` | backend/core/views.py:2102-2105 | a chain that reaches a node without a parent never visits a node twice |
| `Report.ChainIffRootPath` | backend/core/views.py:2099-2105 | the ancestor walk returns a chain exactly when that chain starts at the requirement, links each node to its parent through `node_per_urn` and ends at a node without a parent |
| `Report.SelfParentDiverges` | backend/core/views.py:2102-2105 | a node that is its own parent makes the walk run without end |
| `Report.AllAncestors` | backend/core/views.py:2098-2105 | one ancestor set per assessment, each the elements of its requirement's chain; a failure comes from some assessment's walk |
| `Report.AncestorsClosed` | backend/core/views.py:2099-2105 | each ancestor set holds its requirement and the parent of each of its members that has one |
| `Report.BuildNode` | backend/core/views.py:2107-2163 | the report node is the given node; its children are its children in input order, `bar_graph` says whether there are any, the assessment is its own; the evidences are those of the subtree in pre-order |
| `Report.BuildAll` | backend/core/views.py:2158-2171 | the report nodes are built for the given nodes in order, each well built, with their evidences one after the other |
| `Report.BuildNodeIffFits` | backend/core/views.py:2107-2163 | the tree recursion fails only for lack of depth |
| `Report.GenerateReport` | backend/core/views.py:2097-2182 | the report's roots are exactly the top-level nodes, each well built; the ancestor sets are exactly those of `Report.AllAncestors`, one walked chain per assessment, each holding its requirement and closed under parents; the evidences are those of the forest without duplicates |
| `Report.GenerateReportDoneIff` | backend/core/views.py:2097-2182 | the report fails exactly when an ancestor walk fails or the forest is deeper than the bound |
| `Report.ReportSucceedsOnForest` | backend/core/views.py:2097-2171 | with unique non-empty urns, every chain ending within the bound and every assessed requirement listed, the report is built |
| `Report.Dedup` | backend/core/views.py:2180-2182 | the evidence list has the same elements as the collected evidences and no duplicates |
| `CsvRows.ControlRow` | backend/core/views.py:778-789 | 7 fields, or 8 when the control has owners, each field the control's value for the header column above it |
| `CsvRows.OwnersRecoverable` | backend/core/views.py:787-789 | splitting the owner field on `,` gives the owners' emails back when none contains a comma |
| `CsvRows.CommaInEmailIsAmbiguous` | backend/core/views.py:788 | an email with a comma in it does not come back from the owner field |
| `CsvRows.ExportControls` | backend/core/views.py:764-790 | the 8-column header, then one row per viewable control and no other row |
| `CsvRows.RequirementText` | backend/core/views.py:1679-1683 | the description when there is one, else the name |
| `CsvRows.AuditRow` | backend/core/views.py:1684-1695 | 2 fields, or 6 for an assessable node, each the assessment's value for the header column above it |
| `CsvRows.ComplianceAssessmentCsv` | backend/core/views.py:1657-1701 | a 403 "Permission denied" exactly when the assessment is not viewable; otherwise the 6-column header and one row per requirement assessment in order |

## Left out

- ORM queries, `get_object`, `RoleAssignment.get_accessible_object_ids`, `is_access_allowed` and `Folder.get_root_folder` are not part of this model. Their results are parameters: sequences of records and sets of viewable ids or allowed pairs.
- Serializers, DRF `Response`/`HttpResponse` objects, caching decorators, translations (`get_description_translated`), template and PDF rendering, and CSV quoting and encoding are not modelled. A row is its list of field texts.
- `User.is_admin` and `User.get_admin_users` are not part of this model. A user counts as an administrator when the administrator group's id is among their groups.
- `set_state` is not part of this model. It is taken to assign the state and nothing else.
- The request-data pattern is matched with a strict end anchor. Python's `$` also accepts one trailing newline, which the model does not.
- `Text.Lower` lower-cases ASCII letters only. Python's `str.lower` also folds other Unicode letters.
- `UUID(pk)` raises on a malformed pk. The model takes the pk as an already parsed id.
- The order in which the database returns controls, nodes and assessments is not modelled. The input sequence order stands for it, including the PDF view's `order_by("eta")`.
- `list(set(...))` has no fixed order. `Report.Dedup` keeps first occurrences, and `Report.GenerateReport` only promises the elements and the absence of duplicates.
- `Report.AncestorChain` and `Report.BuildNode`: an infinite parent loop and Python's recursion limit are modelled by a `fuel` bound. Running out of it is reported as `Diverges`.
- `Report.AncestorChain`: the walk's chain is stated by `Report.ChainIffRootPath` rather than in its own contract.
- The dictionaries of the action plan carry more fields per control than the model's `id`, `name` and `status`. So do the report nodes, which also carry result and colour fields. None of these fields decides anything.
- `Users.UpdateRequest` takes `user_groups` as a list of strings. A value of another shape (a bare string, a number) is not modelled, nor is the serializer's validation of the ids.
- `RiskAcceptances.Create` takes the state of a new acceptance without an approver to be `Created`. The default state is set by the model class, which is not part of this model.
- `RiskAcceptances.Update` models only the justification rule. The other fields that the serializer writes on an accepted update are not modelled.
- `requirements_count` is not part of this model; it is a per-control ORM count.
- The other endpoints of the file (duplication, timelines, control info, quality checks, exports other than the two CSVs) are not modelled. They copy or traverse ORM objects without a rule of their own.

## Findings

| source | as written | input that shows it | evidently intended | confidence | as-written member | corrected member |
|---|---|---|---|---|---|---|
| backend/core/views.py:1602-1654 | `response` is only assigned inside `if UUID(pk) in viewable_objects`, yet it is returned after the `if` | a user who cannot view the compliance assessment requests its action plan; the view raises `UnboundLocalError`, answered with 500 | refuse with 403 "Permission denied", as `compliance_assessment_csv` does | high (not executed) | `ActionPlan.ActionPlanView` | `ActionPlan.ActionPlanViewCorrected` |
| backend/core/views.py:1123-1131 | the last-admin guard reads `user_groups` before `_process_request_data` has split it on a PUT, but after it on a PATCH | the sole admin PUTs `user_groups` as one string `"<admin-group-id>,<other-id>"`; the guard sees no admin group id and answers 403, while the same PATCH is accepted and keeps the admin group | check the normalised field, so a PUT is answered like the PATCH | medium (not executed) | `Users.PutAndPatchDisagree` | `Users.UpdateRequestCorrected` |
| backend/core/views.py:1737-1742 | the PDF context is indexed by the raw status, with only an empty status going to `no status` | a viewable assessment with a control of status `"--"`, the status that `action_plan` files under `none`; `context["--"]` raises `KeyError`, answered with 500 | file `"--"` under `no status` | medium (not executed) | `ActionPlan.PdfRefusesDashStatus` | `ActionPlan.ActionPlanPdfContextCorrected` |
| backend/core/views.py:1754 | the refusal is `Response({"error": "Permission denied"})` with no status | a user who cannot view the compliance assessment asks for its PDF action plan and gets the error body with status 200 | 403, as `compliance_assessment_csv` answers | high (not executed) | `ActionPlan.ActionPlanPdfContext` | `ActionPlan.ActionPlanPdfContextCorrected` |
| backend/core/views.py:1124 | the guard reads `request.data["user_groups"]` for the sole admin whether or not the request carries that field | the sole admin sends a PATCH that only changes their first name; the lookup raises `KeyError`, answered with 500 | skip the guard when `user_groups` is absent, since such a request cannot remove the admin group | medium (not executed) | `Users.SoleAdminNeedsUserGroups` | `Users.UpdateCorrected` |
