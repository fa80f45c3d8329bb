/**
 * The check on a request to link a Google Photos item to a medical event:
 * the event id, the photo URL and the photo id are required; the description
 * is free.
 */
module PhotoValidator {
  import opened Common
  import opened Text
  import opened EventValidator

  /** `LinkPhotoInput`. */
  datatype LinkPhotoInput = LinkPhotoInput(
    eventId: string,
    googlePhotosUrl: string,
    googlePhotosId: string,
    description: Option<string>)

  const FieldEventId := "eventId"
  const FieldPhotosUrl := "googlePhotosUrl"
  const FieldPhotosId := "googlePhotosId"

  const EventIdRequired := "El ID del evento es obligatorio"
  const PhotosUrlRequired := "La URL de Google Photos es obligatoria"
  const PhotosIdRequired := "El ID de Google Photos es obligatorio"

  /** The required fields, in checking order, each with its value and its error. */
  function RequiredFields(input: LinkPhotoInput): seq<(string, ValidationError)> {
    [ (input.eventId, ValidationError(FieldEventId, EventIdRequired)),
      (input.googlePhotosUrl, ValidationError(FieldPhotosUrl, PhotosUrlRequired)),
      (input.googlePhotosId, ValidationError(FieldPhotosId, PhotosIdRequired)) ]
  }

  /** The error a single required field contributes. */
  function MissingOne(f: (string, ValidationError)): seq<ValidationError> {
    if Blank(f.0) then [f.1] else []
  }

  /** The errors of the required fields whose value is blank, in the given order. */
  function MissingRequired(fields: seq<(string, ValidationError)>): (r: seq<ValidationError>)
    ensures |r| <= |fields|
    ensures r == [] <==> forall i :: 0 <= i < |fields| ==> !Blank(fields[i].0)
  {
    if fields == [] then []
    else MissingOne(fields[0]) + MissingRequired(fields[1..])
  }

  lemma MissingRequiredThree(fs: seq<(string, ValidationError)>)
    requires |fs| == 3
    ensures MissingRequired(fs) == MissingOne(fs[0]) + MissingOne(fs[1]) + MissingOne(fs[2])
  {
    var t1 := fs[1..];
    var t2 := t1[1..];
    assert t2[1..] == [];
    assert MissingRequired(t2) == MissingOne(fs[2]);
    assert MissingRequired(t1) == MissingOne(fs[1]) + MissingOne(fs[2]);
  }

  /** `validateLinkPhoto`: one check after the other, each pushing its error. */
  method ValidateLinkPhoto(input: LinkPhotoInput) returns (r: ValidationResult)
    ensures r.errors == MissingRequired(RequiredFields(input))
    ensures r.valid <==> r.errors == []
  {
    var errors: seq<ValidationError> := [];
    if Blank(input.eventId) {
      errors := errors + [ValidationError(FieldEventId, EventIdRequired)];
    }
    if Blank(input.googlePhotosUrl) {
      errors := errors + [ValidationError(FieldPhotosUrl, PhotosUrlRequired)];
    }
    if Blank(input.googlePhotosId) {
      errors := errors + [ValidationError(FieldPhotosId, PhotosIdRequired)];
    }
    MissingRequiredThree(RequiredFields(input));
    r := ValidationResult(|errors| == 0, errors);
  }

  /** An input is valid exactly when none of the three required fields is blank. */
  lemma LinkPhotoValidIff(input: LinkPhotoInput)
    ensures MissingRequired(RequiredFields(input)) == []
        <==> !Blank(input.eventId) && !Blank(input.googlePhotosUrl) && !Blank(input.googlePhotosId)
  {
    var fs := RequiredFields(input);
    assert fs[0].0 == input.eventId && fs[1].0 == input.googlePhotosUrl && fs[2].0 == input.googlePhotosId;
  }

  /** Each required field yields exactly one error, on itself, when blank, and none otherwise. */
  lemma LinkPhotoErrorsByField(input: LinkPhotoInput)
    ensures var errs := MissingRequired(RequiredFields(input));
      && ErrorsOn(errs, FieldEventId)
         == (if Blank(input.eventId) then [ValidationError(FieldEventId, EventIdRequired)] else [])
      && ErrorsOn(errs, FieldPhotosUrl)
         == (if Blank(input.googlePhotosUrl) then [ValidationError(FieldPhotosUrl, PhotosUrlRequired)] else [])
      && ErrorsOn(errs, FieldPhotosId)
         == (if Blank(input.googlePhotosId) then [ValidationError(FieldPhotosId, PhotosIdRequired)] else [])
  {
    var fs := RequiredFields(input);
    var a := if Blank(input.eventId) then [fs[0].1] else [];
    var b := if Blank(input.googlePhotosUrl) then [fs[1].1] else [];
    var c := if Blank(input.googlePhotosId) then [fs[2].1] else [];
    MissingRequiredThree(fs);
    ErrorsOnParts3(a, b, c, FieldEventId);
    ErrorsOnParts3(a, b, c, FieldPhotosUrl);
    ErrorsOnParts3(a, b, c, FieldPhotosId);
  }

  lemma ErrorsOnParts3(a: seq<ValidationError>, b: seq<ValidationError>, c: seq<ValidationError>, f: string)
    requires forall i :: 0 <= i < |a| ==> a[i].field == FieldEventId
    requires forall i :: 0 <= i < |b| ==> b[i].field == FieldPhotosUrl
    requires forall i :: 0 <= i < |c| ==> c[i].field == FieldPhotosId
    ensures ErrorsOn(a + b + c, f)
         == if f == FieldEventId then a else if f == FieldPhotosUrl then b
            else if f == FieldPhotosId then c else []
  {
    var p := (e: ValidationError) => e.field == f;
    Listing.WhereAppend(a + b, c, p);
    Listing.WhereAppend(a, b, p);
    ErrorsOnPart(a, FieldEventId, f);
    ErrorsOnPart(b, FieldPhotosUrl, f);
    ErrorsOnPart(c, FieldPhotosId, f);
  }

  /** All three required fields blank: three errors, in the order eventId, googlePhotosUrl, googlePhotosId. */
  lemma LinkPhotoAllBlank(input: LinkPhotoInput)
    requires Blank(input.eventId) && Blank(input.googlePhotosUrl) && Blank(input.googlePhotosId)
    ensures MissingRequired(RequiredFields(input)) == [
      ValidationError(FieldEventId, EventIdRequired),
      ValidationError(FieldPhotosUrl, PhotosUrlRequired),
      ValidationError(FieldPhotosId, PhotosIdRequired)]
  {
    MissingRequiredThree(RequiredFields(input));
  }

  /** The description is never checked: any description, or none, gives the same result. */
  lemma LinkPhotoIgnoresDescription(input: LinkPhotoInput, d: Option<string>)
    ensures MissingRequired(RequiredFields(input.(description := d)))
         == MissingRequired(RequiredFields(input))
  {
  }
}
