/**
 The probability and impact choice lists of a risk scenario: the level
 names of the scenario's risk matrix, keyed by their index, plus the
 undefined level -1 shown as "--". Impact keeps at most 64 levels.
 */
module Choices {

  const UndefinedLevel := -1
  const UndefinedLabel := "--"
  /** `zip(range(0, 64), names)` stops after 64 impact levels. */
  const ImpactLimit := 64

  function Min(a: int, b: int): int
  {
    if a <= b then a else b
  }

  /** `dict(enumerate(names))`. */
  function Enumerate(names: seq<string>): (m: map<int, string>)
    ensures forall k :: k in m <==> 0 <= k < |names|
    ensures forall i :: 0 <= i < |names| ==> m[i] == names[i]
    ensures |m| == |names|
    decreases |names|
  {
    if |names| == 0 then map[]
    else
      var last := |names| - 1;
      Enumerate(names[..last])[last := names[last]]
  }

  /** The probability choices: every matrix level by index, and -1 for "--". */
  function ProbabilityChoices(names: seq<string>): (m: map<int, string>)
    ensures forall k :: k in m <==> k == UndefinedLevel || 0 <= k < |names|
    ensures m[UndefinedLevel] == UndefinedLabel
    ensures forall i :: 0 <= i < |names| ==> m[i] == names[i]
  {
    map[UndefinedLevel := UndefinedLabel] + Enumerate(names)
  }

  /** The impact choices: like probability, but only the first 64 levels. */
  function ImpactChoices(names: seq<string>): (m: map<int, string>)
    ensures forall k :: k in m <==> k == UndefinedLevel || 0 <= k < Min(|names|, ImpactLimit)
    ensures m[UndefinedLevel] == UndefinedLabel
    ensures forall i :: 0 <= i < Min(|names|, ImpactLimit) ==> m[i] == names[i]
  {
    var kept := names[..Min(|names|, ImpactLimit)];
    assert forall i :: 0 <= i < |kept| ==> kept[i] == names[i];
    map[UndefinedLevel := UndefinedLabel] + Enumerate(kept)
  }

  /** One key per matrix level plus the undefined one. */
  lemma ProbabilityChoicesSize(names: seq<string>)
    ensures |ProbabilityChoices(names)| == |names| + 1
  {
    var e := Enumerate(names);
    assert UndefinedLevel !in e;
    assert ProbabilityChoices(names).Keys == e.Keys + {UndefinedLevel};
  }

  /** The impact choices never hold more than 65 keys. */
  lemma ImpactChoicesSize(names: seq<string>)
    ensures |ImpactChoices(names)| == Min(|names|, ImpactLimit) + 1
    ensures |ImpactChoices(names)| <= ImpactLimit + 1
  {
    var e := Enumerate(names[..Min(|names|, ImpactLimit)]);
    assert UndefinedLevel !in e;
    assert ImpactChoices(names).Keys == e.Keys + {UndefinedLevel};
  }

  /**
   Impact is probability over the first 64 level names, and the two agree
   whenever the matrix has at most 64 impact levels.
   */
  lemma ImpactIsTruncatedProbability(names: seq<string>)
    ensures ImpactChoices(names) == ProbabilityChoices(names[..Min(|names|, ImpactLimit)])
    ensures |names| <= ImpactLimit ==> ImpactChoices(names) == ProbabilityChoices(names)
  {
    assert names[..|names|] == names;
  }
}
