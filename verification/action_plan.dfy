/**
 The action plan of a compliance assessment: the applied controls linked
 to its requirement assessments, filed into one bucket per control status.
 The JSON endpoint files "--" under "none" and lower-cases every other
 status; the PDF endpoint files an empty status under "no status" and uses
 every other status as it is.
 */
module ActionPlan {
  import opened Common
  import opened Text

  /** The part of an applied control the bucketing looks at. */
  datatype Control = Control(id: string, name: string, status: string)

  /**
   The JSON endpoint (`action_plan`), the PDF one (`action_plan_pdf`) as
   written, or the PDF one filing "--" like an empty status.
   */
  datatype Variant = Json | Pdf | PdfCorrected

  /** Bucket name to the controls filed under it. */
  type Plan = map<string, seq<Control>>

  const KeyErrorMessage := "KeyError: unknown control status"
  const UnboundResponse := "UnboundLocalError: response"
  const PermissionDenied := "Permission denied"

  function BucketNames(v: Variant): seq<string>
  {
    match v
    case Json => ["none", "to_do", "in_progress", "on_hold", "active", "deprecated"]
    case Pdf | PdfCorrected => ["to_do", "in_progress", "on_hold", "active", "deprecated", "no status"]
  }

  /** The statuses of an applied control: "--" for none, then one per JSON bucket. */
  const ControlStatuses: seq<string> := ["--", "to_do", "in_progress", "on_hold", "active", "deprecated"]

  /** The bucket a status is looked up under. */
  function BucketKey(v: Variant, status: string): string
  {
    match v
    case Json => if status == "--" then "none" else Lower(status)
    case Pdf => if status == "" then "no status" else status
    case PdfCorrected => if status == "" || status == "--" then "no status" else status
  }

  /** Reference definition: the controls of `cs` whose status files under `key`, in input order. */
  function InBucket(v: Variant, cs: seq<Control>, key: string): seq<Control>
  {
    if |cs| == 0 then []
    else
      var c := cs[|cs| - 1];
      InBucket(v, cs[..|cs| - 1], key) + (if BucketKey(v, c.status) == key then [c] else [])
  }

  lemma InBucketSnoc(v: Variant, cs: seq<Control>, c: Control, key: string)
    ensures InBucket(v, cs + [c], key)
         == InBucket(v, cs, key) + (if BucketKey(v, c.status) == key then [c] else [])
  {
    assert (cs + [c])[..|cs|] == cs;
  }

  /** Every control's status names an existing bucket (otherwise the lookup raises KeyError). */
  predicate Fileable(v: Variant, cs: seq<Control>)
  {
    forall i :: 0 <= i < |cs| ==> BucketKey(v, cs[i].status) in BucketNames(v)
  }

  lemma FileableSnoc(v: Variant, cs: seq<Control>, c: Control)
    ensures Fileable(v, cs + [c]) <==> Fileable(v, cs) && BucketKey(v, c.status) in BucketNames(v)
  {
    assert forall i :: 0 <= i < |cs| ==> (cs + [c])[i] == cs[i];
    assert (cs + [c])[|cs|] == c;
  }

  lemma FileableAt(v: Variant, cs: seq<Control>, i: nat)
    requires i < |cs| && BucketKey(v, cs[i].status) !in BucketNames(v)
    ensures !Fileable(v, cs)
  {
  }

  function EmptyPlan(v: Variant): (p: Plan)
    ensures forall k :: k in p <==> k in BucketNames(v)
    ensures forall k :: k in p ==> p[k] == []
  {
    map k | k in BucketNames(v) :: []
  }

  /** `plan` holds exactly the buckets of `v`, each filled with its controls from `cs`. */
  ghost predicate Files(v: Variant, plan: Plan, cs: seq<Control>)
  {
    && (forall k :: k in plan <==> k in BucketNames(v))
    && (forall k :: k in plan ==> plan[k] == InBucket(v, cs, k))
  }

  lemma FileOne(v: Variant, plan: Plan, cs: seq<Control>, c: Control)
    requires Files(v, plan, cs)
    requires BucketKey(v, c.status) in plan
    ensures var key := BucketKey(v, c.status);
      Files(v, plan[key := plan[key] + [c]], cs + [c])
  {
    var key := BucketKey(v, c.status);
    var next := plan[key := plan[key] + [c]];
    forall k | k in next
      ensures next[k] == InBucket(v, cs + [c], k)
    {
      InBucketSnoc(v, cs, c, k);
    }
  }

  /** One step of the loop: `c` appended to its bucket, or `None` for the KeyError. */
  function FileNext(v: Variant, plan: Plan, c: Control): Option<Plan>
  {
    var key := BucketKey(v, c.status);
    if key in plan then Some(plan[key := plan[key] + [c]]) else None
  }

  /** Filing a control whose status names a bucket keeps the plan complete for the longer prefix. */
  lemma FileStepFiled(v: Variant, plan: Plan, cs: seq<Control>, i: nat)
    requires i < |cs|
    requires Files(v, plan, cs[..i]) && Fileable(v, cs[..i])
    requires BucketKey(v, cs[i].status) in plan
    ensures FileNext(v, plan, cs[i]).Some?
    ensures Files(v, FileNext(v, plan, cs[i]).value, cs[..i + 1]) && Fileable(v, cs[..i + 1])
  {
    assert cs[..i + 1] == cs[..i] + [cs[i]];
    FileableSnoc(v, cs[..i], cs[i]);
    FileOne(v, plan, cs[..i], cs[i]);
  }

  /**
   Filing the next control keeps the plan complete for the longer prefix;
   a status naming no bucket makes the whole input unfileable.
   */
  lemma FileStep(v: Variant, plan: Plan, cs: seq<Control>, i: nat)
    requires i < |cs|
    requires Files(v, plan, cs[..i]) && Fileable(v, cs[..i])
    ensures FileNext(v, plan, cs[i]).Some? ==>
      Files(v, FileNext(v, plan, cs[i]).value, cs[..i + 1]) && Fileable(v, cs[..i + 1])
    ensures FileNext(v, plan, cs[i]).None? ==> !Fileable(v, cs)
  {
    if BucketKey(v, cs[i].status) in plan {
      FileStepFiled(v, plan, cs, i);
    } else {
      FileableAt(v, cs, i);
    }
  }

  lemma FilesWhole(v: Variant, plan: Plan, cs: seq<Control>)
    requires Files(v, plan, cs[..|cs|]) && Fileable(v, cs[..|cs|])
    ensures Files(v, plan, cs) && Fileable(v, cs)
  {
    assert cs[..|cs|] == cs;
  }

  lemma FilesEmpty(v: Variant, cs: seq<Control>)
    ensures Files(v, EmptyPlan(v), cs[..0]) && Fileable(v, cs[..0])
  {
    assert cs[..0] == [];
  }

  /** The bucketing loop shared by both endpoints; `None` stands for the KeyError. */
  method Distribute(v: Variant, controls: seq<Control>) returns (r: Option<Plan>)
    ensures r.Some? <==> Fileable(v, controls)
    ensures r.Some? ==> Files(v, r.value, controls)
  {
    var plan := EmptyPlan(v);
    FilesEmpty(v, controls);
    var i := 0;
    while i < |controls|
      invariant 0 <= i <= |controls|
      invariant Files(v, plan, controls[..i])
      invariant Fileable(v, controls[..i])
    {
      var next := FileNext(v, plan, controls[i]);
      FileStep(v, plan, controls, i);
      if next.None? {
        return None;
      }
      plan := next.value;
      i := i + 1;
    }
    FilesWhole(v, plan, controls);
    r := Some(plan);
  }

  /** `action_plan` as written: a pk the user cannot view leaves `response` unbound. */
  method ActionPlanView(viewable: set<string>, pk: string, controls: seq<Control>) returns (r: Response<Plan>)
    ensures pk !in viewable ==> r == Error(ServerError, UnboundResponse)
    ensures pk in viewable && !Fileable(Json, controls) ==> r == Error(ServerError, KeyErrorMessage)
    ensures pk in viewable && Fileable(Json, controls) ==>
      && r.Ok?
      && Files(Json, r.value, controls)
  {
    if pk !in viewable {
      return Error(ServerError, UnboundResponse);
    }
    var plan := Distribute(Json, controls);
    if plan.None? {
      return Error(ServerError, KeyErrorMessage);
    }
    r := Ok(plan.value);
  }

  /** `action_plan` as evidently intended: a pk the user cannot view is refused with 403. */
  method ActionPlanViewCorrected(viewable: set<string>, pk: string, controls: seq<Control>) returns (r: Response<Plan>)
    ensures pk !in viewable ==> r == Error(Forbidden, PermissionDenied)
    ensures pk in viewable && !Fileable(Json, controls) ==> r == Error(ServerError, KeyErrorMessage)
    ensures pk in viewable && Fileable(Json, controls) ==>
      && r.Ok?
      && Files(Json, r.value, controls)
  {
    if pk !in viewable {
      return Error(Forbidden, PermissionDenied);
    }
    var plan := Distribute(Json, controls);
    if plan.None? {
      return Error(ServerError, KeyErrorMessage);
    }
    r := Ok(plan.value);
  }

  /**
   The context of `action_plan_pdf` (controls come ordered by ETA). A pk the
   user cannot view gets an error body with the default status 200.
   */
  method ActionPlanPdfContext(viewable: set<string>, pk: string, controls: seq<Control>) returns (r: Response<Plan>)
    ensures pk !in viewable ==> r == Error(Success, PermissionDenied)
    ensures pk in viewable && !Fileable(Pdf, controls) ==> r == Error(ServerError, KeyErrorMessage)
    ensures pk in viewable && Fileable(Pdf, controls) ==>
      && r.Ok?
      && Files(Pdf, r.value, controls)
  {
    if pk !in viewable {
      return Error(Success, PermissionDenied);
    }
    var plan := Distribute(Pdf, controls);
    if plan.None? {
      return Error(ServerError, KeyErrorMessage);
    }
    r := Ok(plan.value);
  }

  /**
   `action_plan_pdf` as evidently intended: a pk the user cannot view is
   refused with 403, and a control with status "--" is filed under "no status".
   */
  method ActionPlanPdfContextCorrected(viewable: set<string>, pk: string, controls: seq<Control>) returns (r: Response<Plan>)
    ensures pk !in viewable ==> r == Error(Forbidden, PermissionDenied)
    ensures pk in viewable && !Fileable(PdfCorrected, controls) ==> r == Error(ServerError, KeyErrorMessage)
    ensures pk in viewable && Fileable(PdfCorrected, controls) ==>
      && r.Ok?
      && Files(PdfCorrected, r.value, controls)
  {
    if pk !in viewable {
      return Error(Forbidden, PermissionDenied);
    }
    var plan := Distribute(PdfCorrected, controls);
    if plan.None? {
      return Error(ServerError, KeyErrorMessage);
    }
    r := Ok(plan.value);
  }

  /** As written, the PDF view cannot file a control whose status is "--": it ends in `KeyError`. */
  lemma PdfRefusesDashStatus(cs: seq<Control>, i: nat)
    requires i < |cs| && cs[i].status == "--"
    ensures !Fileable(Pdf, cs)
  {
    assert BucketKey(Pdf, cs[i].status) !in BucketNames(Pdf);
  }

  /**
   Corrected, the PDF view files every status a control can carry, and
   under the bucket the JSON view uses, "no status" standing for "none".
   */
  lemma PdfCorrectedFilesLikeJson(s: string)
    requires s in ControlStatuses
    ensures BucketKey(PdfCorrected, s) in BucketNames(PdfCorrected)
    ensures BucketKey(PdfCorrected, s) == (if BucketKey(Json, s) == "none" then "no status" else BucketKey(Json, s))
  {
    if s != "--" {
      LowerOfLowerCase(s);
    }
  }

  /** A status of lower-case letters and underscores is its own lower-case form. */
  lemma {:induction false} LowerOfLowerCase(s: string)
    requires forall i :: 0 <= i < |s| ==> 'a' <= s[i] <= 'z' || s[i] == '_'
    ensures Lower(s) == s
    decreases |s|
  {
    if |s| > 0 {
      LowerOfLowerCase(s[1..]);
    }
  }

  /** Corrected, the PDF view never ends in `KeyError` for controls with real or empty statuses. */
  lemma PdfCorrectedFilesAll(cs: seq<Control>)
    requires forall i :: 0 <= i < |cs| ==> cs[i].status in ControlStatuses || cs[i].status == ""
    ensures Fileable(PdfCorrected, cs)
  {
    forall i | 0 <= i < |cs|
      ensures BucketKey(PdfCorrected, cs[i].status) in BucketNames(PdfCorrected)
    {
      if cs[i].status != "" {
        PdfCorrectedFilesLikeJson(cs[i].status);
      }
    }
  }

  /** The multiset union of the buckets named in `keys`. */
  function Gather(v: Variant, cs: seq<Control>, keys: seq<string>): multiset<Control>
  {
    if |keys| == 0 then multiset{}
    else multiset(InBucket(v, cs, keys[0])) + Gather(v, cs, keys[1..])
  }

  predicate Distinct(keys: seq<string>)
  {
    forall i, j :: 0 <= i < j < |keys| ==> keys[i] != keys[j]
  }

  lemma {:induction false} GatherStep(v: Variant, cs: seq<Control>, c: Control, keys: seq<string>)
    requires Distinct(keys)
    ensures Gather(v, cs + [c], keys)
         == Gather(v, cs, keys) + (if BucketKey(v, c.status) in keys then multiset{c} else multiset{})
    decreases |keys|
  {
    if |keys| > 0 {
      var key := BucketKey(v, c.status);
      DistinctTail(keys);
      GatherStep(v, cs, c, keys[1..]);
      InBucketSnoc(v, cs, c, keys[0]);
      OneBucketTakesIt(key, keys, c);
      AddInPairs(
        multiset(InBucket(v, cs, keys[0])), Gather(v, cs, keys[1..]),
        multiset(if key == keys[0] then [c] else []),
        if key in keys[1..] then multiset{c} else multiset{});
    }
  }

  lemma DistinctTail(keys: seq<string>)
    requires Distinct(keys) && |keys| > 0
    ensures Distinct(keys[1..]) && keys[0] !in keys[1..]
  {
  }

  /** With distinct keys, a control's key is either the first one or one of the rest. */
  lemma OneBucketTakesIt(key: string, keys: seq<string>, c: Control)
    requires |keys| > 0 && keys[0] !in keys[1..]
    ensures multiset(if key == keys[0] then [c] else []) + (if key in keys[1..] then multiset{c} else multiset{})
         == if key in keys then multiset{c} else multiset{}
  {
    assert keys == [keys[0]] + keys[1..];
  }

  lemma AddInPairs(a: multiset<Control>, b: multiset<Control>, x: multiset<Control>, y: multiset<Control>)
    ensures (a + x) + (b + y) == (a + b) + (x + y)
  {
  }

  lemma {:induction false} GatherAll(v: Variant, cs: seq<Control>, keys: seq<string>)
    requires Distinct(keys)
    requires forall i :: 0 <= i < |cs| ==> BucketKey(v, cs[i].status) in keys
    ensures Gather(v, cs, keys) == multiset(cs)
    decreases |cs|
  {
    if |cs| == 0 {
      assert forall k :: k in keys ==> InBucket(v, cs, k) == [];
      GatherEmpty(v, cs, keys);
    } else {
      var init := cs[..|cs| - 1];
      var c := cs[|cs| - 1];
      assert cs == init + [c];
      GatherAll(v, init, keys);
      GatherStep(v, init, c, keys);
    }
  }

  lemma {:induction false} GatherEmpty(v: Variant, cs: seq<Control>, keys: seq<string>)
    requires |cs| == 0
    ensures Gather(v, cs, keys) == multiset{}
    decreases |keys|
  {
    if |keys| > 0 {
      GatherEmpty(v, cs, keys[1..]);
    }
  }

  /**
   Each control lands in exactly one bucket: the buckets together hold
   precisely the input controls, with their multiplicities.
   */
  lemma BucketsPartitionControls(v: Variant, cs: seq<Control>)
    requires Fileable(v, cs)
    ensures Gather(v, cs, BucketNames(v)) == multiset(cs)
  {
    BucketNamesDistinct(v);
    GatherAll(v, cs, BucketNames(v));
  }

  lemma BucketNamesDistinct(v: Variant)
    ensures Distinct(BucketNames(v))
  {
  }

  /** A bucket holds a control exactly when the control is in the input with that bucket's status. */
  lemma {:induction false} InBucketMembers(v: Variant, cs: seq<Control>, k: string, c: Control)
    ensures c in InBucket(v, cs, k) <==> c in cs && BucketKey(v, c.status) == k
    decreases |cs|
  {
    if |cs| > 0 {
      var init := cs[..|cs| - 1];
      var last := cs[|cs| - 1];
      assert cs == init + [last];
      InBucketMembers(v, init, k, c);
    }
  }

  /** "--" files under "none"; upper-case statuses share the bucket of their lower-case form. */
  lemma JsonBucketExamples()
    ensures BucketKey(Json, "--") == "none"
    ensures BucketKey(Json, "TO_DO") == "to_do"
    ensures BucketKey(Pdf, "") == "no status"
    ensures BucketKey(Pdf, "--") !in BucketNames(Pdf)
  {
    assert Lower("TO_DO") == "to_do";
  }
}
