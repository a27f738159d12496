/** The request rules shared by `store` and `update`:
    `title` required|string|max:255, `content` required|string,
    `is_published` boolean. */
module Validation {
  import opened Wrappers
  import opened Posts

  const MaxTitle: nat := 255

  /** The characters PHP's `trim` strips by default. */
  predicate TrimmedAway(c: char) {
    c == ' ' || c == '\t' || c == '\n' || c == '\r' || c == '\0' || c == '\U{000B}'
  }

  /** `s` without its leading whitespace. */
  function TrimStart(s: string): (r: string)
    ensures |r| <= |s| && r == s[|s| - |r|..]
    ensures r == [] || !TrimmedAway(r[0])
    ensures forall i :: 0 <= i < |s| - |r| ==> TrimmedAway(s[i])
  {
    if |s| > 0 && TrimmedAway(s[0]) then TrimStart(s[1..]) else s
  }

  /** `s` without its trailing whitespace. */
  function TrimEnd(s: string): (r: string)
    ensures |r| <= |s| && r == s[..|r|]
    ensures r == [] || !TrimmedAway(r[|r| - 1])
    ensures forall i :: |r| <= i < |s| ==> TrimmedAway(s[i])
  {
    if |s| > 0 && TrimmedAway(s[|s| - 1]) then TrimEnd(s[..|s| - 1]) else s
  }

  /** PHP's `trim` with its default character list. */
  function Trim(s: string): (r: string)
    ensures r == [] || (!TrimmedAway(r[0]) && !TrimmedAway(r[|r| - 1]))
  {
    TrimEnd(TrimStart(s))
  }

  /** A string made only of whitespace. */
  predicate Blank(s: string) {
    forall i :: 0 <= i < |s| ==> TrimmedAway(s[i])
  }

  /** The `required` rule on a string field: present, and not empty once trimmed. */
  predicate Filled(v: Option<string>) {
    v.Some? && Trim(v.value) != []
  }

  /** Trimming leaves nothing exactly when the string is all whitespace. */
  lemma TrimIsEmptyIffBlank(s: string)
    ensures Trim(s) == [] <==> Blank(s)
  {
  }

  predicate TitleAccepted(v: Option<string>) {
    Filled(v) && |v.value| <= MaxTitle
  }

  predicate ContentAccepted(v: Option<string>) {
    Filled(v)
  }

  /** The validated request: what `$request->validate(...)` hands back. The flag
      stays optional, since the `boolean` rule does not make it required. */
  datatype Validated = Validated(title: string, content: string, isPublished: Option<bool>)

  /** Runs the rules; a failure lists every failing field. */
  function Validate(p: Payload): (r: Outcome<Validated>)
    ensures r.Ok? || r.Invalid?
    ensures r.Ok? <==> TitleAccepted(p.title) && ContentAccepted(p.content)
    ensures r.Ok? ==> p.title == Some(r.value.title) && p.content == Some(r.value.content)
                      && r.value.isPublished == p.isPublished
    ensures r.Ok? ==> 0 < |r.value.title| <= MaxTitle && 0 < |r.value.content|
    ensures r.Invalid? ==> r.fields != {}
                           && (Title in r.fields <==> !TitleAccepted(p.title))
                           && (Content in r.fields <==> !ContentAccepted(p.content))
  {
    var errors := (if TitleAccepted(p.title) then {} else {Title})
                + (if ContentAccepted(p.content) then {} else {Content});
    if errors == {} then Ok(Validated(p.title.value, p.content.value, p.isPublished))
    else Invalid(errors)
  }

  /** `required` is stricter than non-empty: a title or content made only of
      whitespace is rejected and named, while any other present content passes. */
  lemma BlankIsRejected(p: Payload)
    ensures p.title.Some? && Blank(p.title.value) ==> Title in Validate(p).fields
    ensures p.content.Some? && Blank(p.content.value) ==> Content in Validate(p).fields
    ensures p.content.Some? && !Blank(p.content.value) ==> Validate(p).Ok? || Content !in Validate(p).fields
  {
    if p.title.Some? {
      TrimIsEmptyIffBlank(p.title.value);
    }
    if p.content.Some? {
      TrimIsEmptyIffBlank(p.content.value);
    }
  }
}
