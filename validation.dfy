/** Rails presence validation as the two models use it: an attribute is present
    unless it is nil or a blank string, and `create!`/`update!` raise
    `ActiveRecord::RecordInvalid` whose message lists every missing attribute,
    in declaration order, after "Validation failed: ". */
module Validation {
  import opened Common
  import Text

  /** `present?` for a string attribute. */
  predicate PresentString(s: Option<string>) {
    s.Some? && !Text.IsBlank(s.value)
  }

  /** The error a missing attribute contributes (its humanized name first). */
  function BlankMessage(attribute: string): string {
    attribute + " can't be blank"
  }

  /** The errors one presence validation adds: none, or exactly the blank
      message of its attribute. */
  function Require(present: bool, attribute: string): (errors: seq<string>)
    ensures present <==> errors == []
    ensures !present ==> errors == [BlankMessage(attribute)]
  {
    if present then [] else [BlankMessage(attribute)]
  }

  /** One `validates :attribute, presence: true` line, evaluated on a record. */
  datatype Check = Check(present: bool, attribute: string)

  /** The errors of a list of presence validations: the blank message of each
      attribute that is missing, in declaration order. */
  function Missing(checks: seq<Check>): (errors: seq<string>)
    ensures errors == [] <==> forall i :: 0 <= i < |checks| ==> checks[i].present
    ensures |errors| <= |checks|
  {
    if checks == [] then []
    else (if checks[0].present then [] else [BlankMessage(checks[0].attribute)]) + Missing(checks[1..])
  }

  /** The message of `ActiveRecord::RecordInvalid`. */
  function FailureMessage(errors: seq<string>): string {
    "Validation failed: " + Text.Join(errors, ", ")
  }

  lemma MissingCons(c: Check, rest: seq<Check>)
    ensures Missing([c] + rest) == Require(c.present, c.attribute) + Missing(rest)
  {
    assert ([c] + rest)[1..] == rest;
  }

  /** Six declared validations, as the `Address` model has. */
  lemma MissingSix(c0: Check, c1: Check, c2: Check, c3: Check, c4: Check, c5: Check)
    ensures Missing([c0, c1, c2, c3, c4, c5])
         == Require(c0.present, c0.attribute) + (Require(c1.present, c1.attribute)
          + (Require(c2.present, c2.attribute) + (Require(c3.present, c3.attribute)
          + (Require(c4.present, c4.attribute) + (Require(c5.present, c5.attribute) + [])))))
  {
    var t5: seq<Check> := [c5];
    var t4 := [c4] + t5;
    var t3 := [c3] + t4;
    var t2 := [c2] + t3;
    var t1 := [c1] + t2;
    var t0 := [c0] + t1;
    MissingCons(c5, []);
    assert [c5] + [] == t5;
    MissingCons(c4, t5);
    MissingCons(c3, t4);
    MissingCons(c2, t3);
    MissingCons(c1, t2);
    MissingCons(c0, t1);
    assert t0 == [c0, c1, c2, c3, c4, c5];
  }
}
