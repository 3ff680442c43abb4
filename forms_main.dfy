/** The photo-page forms of app/forms/main.py. */
module MainForms {
  import opened Text
  import opened Validators

  const DescriptionChecks: seq<Check> := [Optional, Length(0, 500)]
  /** The whole tag input, before it is split into names. */
  const TagChecks: seq<Check> := [Optional, Length(0, 64)]
  const CommentChecks: seq<Check> := [DataRequired, Length(1, 200)]

  predicate DescriptionValid(d: string) { FieldValid(d, DescriptionChecks) }
  predicate TagInputValid(t: string) { FieldValid(t, TagChecks) }
  predicate CommentValid(body: string) { FieldValid(body, CommentChecks) }

  /** A description may be empty (or blank); otherwise at most 500 characters. */
  lemma DescriptionRule(d: string)
    ensures DescriptionValid(d) <==> Blank(d) || |d| <= 500
    ensures DescriptionValid([])
  {
    Optional1(d, Length(0, 500));
    Optional1([], Length(0, 500));
  }

  /** The tag input may be empty (or blank); otherwise at most 64 characters. */
  lemma TagInputRule(t: string)
    ensures TagInputValid(t) <==> Blank(t) || |t| <= 64
    ensures TagInputValid([])
  {
    Optional1(t, Length(0, 64));
    Optional1([], Length(0, 64));
  }

  /** A comment body is required: 1..200 characters, not all whitespace; in
      particular the empty body is refused. */
  lemma CommentRule(body: string)
    ensures CommentValid(body) <==> !Blank(body) && 1 <= |body| <= 200
    ensures !CommentValid([])
  {
    Required1(body, Length(1, 200));
    Required1([], Length(1, 200));
  }
}
