/**
 * Input checks for creating and updating a medical event. Every field is
 * checked on its own and every failure is reported; the input is valid exactly
 * when no check failed. Error field names and messages are the literal strings
 * the checks emit.
 */
module EventValidator {
  import opened Common
  import opened Text
  import opened MedicalEvents
  import Listing

  /** `ValidationError` (`campo`, `mensaje`). */
  datatype ValidationError = ValidationError(field: string, message: string)

  /** `ValidationResult` (`valido`, `errores`). */
  datatype ValidationResult = ValidationResult(valid: bool, errors: seq<ValidationError>)

  const FieldDate := "fecha"
  const FieldType := "tipo"
  const FieldDescription := "descripcion"
  const FieldPatient := "pacienteId"

  /** The order in which the checks run, and so the order of the errors. */
  const FieldOrder := [FieldDate, FieldType, FieldDescription, FieldPatient]

  const DateRequired := "La fecha es obligatoria"
  const DateFormat := "La fecha debe tener formato YYYY-MM-DD válido"
  const TypeRequired := "El tipo de evento es obligatorio"
  const TypeInvalid := "Tipo inválido. Debe ser uno de: " + Join(EventTypes, ", ")
  const DescriptionRequired := "La descripción es obligatoria"
  const PatientRequired := "El paciente es obligatorio"
  const DateEmpty := "La fecha no puede estar vacía"
  const TypeEmpty := "El tipo no puede estar vacío"
  const DescriptionEmpty := "La descripción no puede estar vacía"
  const PatientEmpty := "El paciente no puede estar vacío"

  // ---- date and type predicates ----

  /** `\d` of a JavaScript regular expression without the `u` flag. */
  predicate IsDigit(c: char) {
    '0' <= c <= '9'
  }

  function DigitValue(c: char): nat
    requires IsDigit(c)
  {
    c as int - '0' as int
  }

  /** `/^\d{4}-\d{2}-\d{2}$/`. */
  predicate MatchesIsoDate(s: string) {
    && |s| == 10
    && IsDigit(s[0]) && IsDigit(s[1]) && IsDigit(s[2]) && IsDigit(s[3])
    && s[4] == '-'
    && IsDigit(s[5]) && IsDigit(s[6])
    && s[7] == '-'
    && IsDigit(s[8]) && IsDigit(s[9])
  }

  function Month(s: string): nat
    requires MatchesIsoDate(s)
  {
    DigitValue(s[5]) * 10 + DigitValue(s[6])
  }

  function Day(s: string): nat
    requires MatchesIsoDate(s)
  {
    DigitValue(s[8]) * 10 + DigitValue(s[9])
  }

  /**
   * `isValidDate`: the shape matches and `Date` accepts `s + 'T00:00:00Z'`,
   * which it does when the month is 01 to 12 and the day 01 to 31.
   */
  predicate IsValidDate(s: string): (b: bool)
    ensures b ==> |s| == 10 && !Blank(s)
    ensures b ==> MatchesIsoDate(s) && 1 <= Month(s) <= 12 && 1 <= Day(s) <= 31
    ensures MatchesIsoDate(s) && 1 <= Month(s) <= 12 && 1 <= Day(s) <= 31 ==> b
  {
    if MatchesIsoDate(s) then
      NotBlankWhenFirstNotSpace(s);
      1 <= Month(s) <= 12 && 1 <= Day(s) <= 31
    else false
  }

  /** `isValidEventType`: membership in `EVENT_TYPES`; a valid type is never blank. */
  predicate IsValidEventType(s: string): (b: bool)
    ensures b ==> !Blank(s)
  {
    if s in EventTypes then
      EventTypesNotBlank(s);
      true
    else false
  }

  /** The dates named in the test suite: only the well-formed one is accepted. */
  lemma DateExamples()
    ensures !IsValidDate("15-06-2024")
    ensures !IsValidDate("2024-13-45")
    ensures IsValidDate("2024-06-15")
    ensures !Blank("15-06-2024")
    ensures Blank("") && Blank("   ")
  {
    assert "15-06-2024"[4] == '6';
    var d := "2024-13-45";
    assert Month(d) == 13;
    var ok := "2024-06-15";
    assert Month(ok) == 6 && Day(ok) == 15;
    NotBlankWhenFirstNotSpace("15-06-2024");
    assert AllSpace("   ");
  }

  // ---- one check per field ----

  /** The date check: blank gives `blankMessage`, otherwise an invalid date gives the format error. */
  function DateCheck(date: string, blankMessage: string): seq<ValidationError> {
    if Blank(date) then [ValidationError(FieldDate, blankMessage)]
    else if !IsValidDate(date) then [ValidationError(FieldDate, DateFormat)]
    else []
  }

  /** The type check: blank gives `blankMessage`, otherwise a type outside `EVENT_TYPES` gives `TypeInvalid`. */
  function TypeCheck(eventType: string, blankMessage: string): seq<ValidationError> {
    if Blank(eventType) then [ValidationError(FieldType, blankMessage)]
    else if !IsValidEventType(eventType) then [ValidationError(FieldType, TypeInvalid)]
    else []
  }

  /** A required text field: blank gives `message`. */
  function NotBlankCheck(field: string, value: string, message: string): seq<ValidationError> {
    if Blank(value) then [ValidationError(field, message)] else []
  }

  /** A field of a patch is checked only when present. */
  function WhenPresent(value: Option<string>, check: string -> seq<ValidationError>): seq<ValidationError> {
    if value.Some? then check(value.value) else []
  }

  /** `validarCrearEvento`. */
  function ValidateCreate(input: CreateEventInput): (r: ValidationResult)
    ensures r.valid <==> r.errors == []
  {
    var errors :=
      DateCheck(input.date, DateRequired)
      + TypeCheck(input.eventType, TypeRequired)
      + NotBlankCheck(FieldDescription, input.description, DescriptionRequired)
      + NotBlankCheck(FieldPatient, input.patientId, PatientRequired);
    ValidationResult(|errors| == 0, errors)
  }

  /** `validarActualizarEvento`. */
  function ValidateUpdate(patch: UpdateEventInput): (r: ValidationResult)
    ensures r.valid <==> r.errors == []
  {
    var errors :=
      WhenPresent(patch.date, d => DateCheck(d, DateEmpty))
      + WhenPresent(patch.eventType, t => TypeCheck(t, TypeEmpty))
      + WhenPresent(patch.description, d => NotBlankCheck(FieldDescription, d, DescriptionEmpty))
      + WhenPresent(patch.patientId, p => NotBlankCheck(FieldPatient, p, PatientEmpty));
    ValidationResult(|errors| == 0, errors)
  }

  // ---- error order ----

  /** Position of a field in `FieldOrder` (4 for any other string). */
  function Rank(field: string): nat {
    if field == FieldDate then 0
    else if field == FieldType then 1
    else if field == FieldDescription then 2
    else if field == FieldPatient then 3
    else 4
  }

  /** Errors name fields of `FieldOrder` only, in that order, each at most once. */
  predicate InFieldOrder(errors: seq<ValidationError>) {
    && (forall i :: 0 <= i < |errors| ==> Rank(errors[i].field) < 4)
    && (forall i, j :: 0 <= i < j < |errors| ==> Rank(errors[i].field) < Rank(errors[j].field))
  }

  /** Every error of `part` is on the field of rank `k`. */
  predicate OnRank(part: seq<ValidationError>, k: nat) {
    |part| <= 1 && forall i :: 0 <= i < |part| ==> Rank(part[i].field) == k
  }

  lemma InFieldOrderParts(a: seq<ValidationError>, b: seq<ValidationError>, c: seq<ValidationError>, d: seq<ValidationError>)
    requires OnRank(a, 0) && OnRank(b, 1) && OnRank(c, 2) && OnRank(d, 3)
    ensures InFieldOrder(a + b + c + d)
  {
    var e := a + b + c + d;
    forall i, j | 0 <= i < j < |e|
      ensures Rank(e[i].field) < Rank(e[j].field)
    {
      RankAt(a, b, c, d, i);
      RankAt(a, b, c, d, j);
    }
    forall i | 0 <= i < |e|
      ensures Rank(e[i].field) < 4
    {
      RankAt(a, b, c, d, i);
    }
  }

  /** The rank of the `i`-th error of a four-part concatenation grows with the part it comes from. */
  lemma RankAt(a: seq<ValidationError>, b: seq<ValidationError>, c: seq<ValidationError>, d: seq<ValidationError>, i: nat)
    requires OnRank(a, 0) && OnRank(b, 1) && OnRank(c, 2) && OnRank(d, 3)
    requires i < |a + b + c + d|
    ensures Rank((a + b + c + d)[i].field)
         == if i < |a| then 0 else if i < |a| + |b| then 1 else if i < |a| + |b| + |c| then 2 else 3
  {
    var e := a + b + c + d;
    if i < |a| {
      assert e[i] == a[i];
    } else if i < |a| + |b| {
      assert e[i] == b[i - |a|];
    } else if i < |a| + |b| + |c| {
      assert e[i] == c[i - |a| - |b|];
    } else {
      assert e[i] == d[i - |a| - |b| - |c|];
    }
  }

  /** Each create error is on a distinct field, in the order fecha, tipo, descripcion, pacienteId. */
  lemma ValidateCreateFieldOrder(input: CreateEventInput)
    ensures InFieldOrder(ValidateCreate(input).errors)
    ensures |ValidateCreate(input).errors| <= 4
  {
    InFieldOrderParts(
      DateCheck(input.date, DateRequired),
      TypeCheck(input.eventType, TypeRequired),
      NotBlankCheck(FieldDescription, input.description, DescriptionRequired),
      NotBlankCheck(FieldPatient, input.patientId, PatientRequired));
  }

  /** Each update error is on a distinct field, in the same order. */
  lemma ValidateUpdateFieldOrder(patch: UpdateEventInput)
    ensures InFieldOrder(ValidateUpdate(patch).errors)
    ensures |ValidateUpdate(patch).errors| <= 4
  {
    InFieldOrderParts(
      WhenPresent(patch.date, d => DateCheck(d, DateEmpty)),
      WhenPresent(patch.eventType, t => TypeCheck(t, TypeEmpty)),
      WhenPresent(patch.description, d => NotBlankCheck(FieldDescription, d, DescriptionEmpty)),
      WhenPresent(patch.patientId, p => NotBlankCheck(FieldPatient, p, PatientEmpty)));
  }

  // ---- what each field contributes ----

  /** The errors reported on one field. */
  function ErrorsOn(errors: seq<ValidationError>, field: string): seq<ValidationError> {
    Listing.Where(errors, (e: ValidationError) => e.field == field)
  }

  lemma ErrorsOnPart(part: seq<ValidationError>, g: string, f: string)
    requires forall i :: 0 <= i < |part| ==> part[i].field == g
    ensures ErrorsOn(part, f) == if f == g then part else []
  {
    var p := (e: ValidationError) => e.field == f;
    if f == g {
      Listing.WhereAll(part, p);
    } else {
      Listing.WhereNone(part, p);
    }
  }

  lemma ErrorsOnParts(a: seq<ValidationError>, b: seq<ValidationError>, c: seq<ValidationError>, d: seq<ValidationError>, f: string)
    requires forall i :: 0 <= i < |a| ==> a[i].field == FieldDate
    requires forall i :: 0 <= i < |b| ==> b[i].field == FieldType
    requires forall i :: 0 <= i < |c| ==> c[i].field == FieldDescription
    requires forall i :: 0 <= i < |d| ==> d[i].field == FieldPatient
    ensures ErrorsOn(a + b + c + d, f)
         == if f == FieldDate then a else if f == FieldType then b
            else if f == FieldDescription then c else if f == FieldPatient then d else []
  {
    var p := (e: ValidationError) => e.field == f;
    Listing.WhereAppend(a + b + c, d, p);
    Listing.WhereAppend(a + b, c, p);
    Listing.WhereAppend(a, b, p);
    ErrorsOnPart(a, FieldDate, f);
    ErrorsOnPart(b, FieldType, f);
    ErrorsOnPart(c, FieldDescription, f);
    ErrorsOnPart(d, FieldPatient, f);
  }

  /**
   * On create, each field yields exactly the error of its own check: a blank
   * date the "required" error, a non-blank malformed date the format error, a
   * non-blank unknown type the `TypeInvalid` error; the flags never yield one.
   */
  lemma ValidateCreateErrorsByField(input: CreateEventInput)
    ensures var errs := ValidateCreate(input).errors;
      && ErrorsOn(errs, FieldDate)
         == (if Blank(input.date) then [ValidationError(FieldDate, DateRequired)]
             else if !IsValidDate(input.date) then [ValidationError(FieldDate, DateFormat)] else [])
      && ErrorsOn(errs, FieldType)
         == (if Blank(input.eventType) then [ValidationError(FieldType, TypeRequired)]
             else if !IsValidEventType(input.eventType) then [ValidationError(FieldType, TypeInvalid)] else [])
      && ErrorsOn(errs, FieldDescription)
         == (if Blank(input.description) then [ValidationError(FieldDescription, DescriptionRequired)] else [])
      && ErrorsOn(errs, FieldPatient)
         == (if Blank(input.patientId) then [ValidationError(FieldPatient, PatientRequired)] else [])
  {
    CreateErrorsOn(input, FieldDate);
    CreateErrorsOn(input, FieldType);
    CreateErrorsOn(input, FieldDescription);
    CreateErrorsOn(input, FieldPatient);
  }

  /** The errors on field `f` of a create input are those of `f`'s own check. */
  lemma CreateErrorsOn(input: CreateEventInput, f: string)
    ensures var errs := ValidateCreate(input).errors;
      ErrorsOn(errs, f)
      == if f == FieldDate then DateCheck(input.date, DateRequired)
         else if f == FieldType then TypeCheck(input.eventType, TypeRequired)
         else if f == FieldDescription then NotBlankCheck(FieldDescription, input.description, DescriptionRequired)
         else if f == FieldPatient then NotBlankCheck(FieldPatient, input.patientId, PatientRequired)
         else []
  {
    var a := DateCheck(input.date, DateRequired);
    var b := TypeCheck(input.eventType, TypeRequired);
    var c := NotBlankCheck(FieldDescription, input.description, DescriptionRequired);
    var d := NotBlankCheck(FieldPatient, input.patientId, PatientRequired);
    assert ValidateCreate(input).errors == a + b + c + d;
    ErrorsOnParts(a, b, c, d, f);
  }

  /** A create input is valid exactly when the date and type are valid and description and patient are not blank. */
  lemma ValidateCreateValidIff(input: CreateEventInput)
    ensures ValidateCreate(input).valid
        <==> && IsValidDate(input.date)
             && IsValidEventType(input.eventType)
             && !Blank(input.description)
             && !Blank(input.patientId)
  {
  }

  /** The reimbursement flags never affect the result. */
  lemma ValidateCreateIgnoresFlags(input: CreateEventInput, isapre: Option<bool>, insurance: Option<bool>)
    ensures ValidateCreate(input.(isapreReimbursed := isapre, insuranceReimbursed := insurance))
         == ValidateCreate(input)
  {
  }

  /** An all-blank create input yields the four "required" errors, in field order. */
  lemma ValidateCreateAllBlank(input: CreateEventInput)
    requires Blank(input.date) && Blank(input.eventType)
    requires Blank(input.description) && Blank(input.patientId)
    ensures ValidateCreate(input).errors == [
      ValidationError(FieldDate, DateRequired),
      ValidationError(FieldType, TypeRequired),
      ValidationError(FieldDescription, DescriptionRequired),
      ValidationError(FieldPatient, PatientRequired)]
    ensures !ValidateCreate(input).valid
  {
  }

  /** A non-blank date that `isValidDate` rejects is reported with the format error only, when the rest is valid. */
  lemma ValidateCreateMalformedDate(input: CreateEventInput)
    requires !Blank(input.date) && !IsValidDate(input.date)
    requires IsValidEventType(input.eventType)
    requires !Blank(input.description) && !Blank(input.patientId)
    ensures ValidateCreate(input).errors == [ValidationError(FieldDate, DateFormat)]
  {
  }

  /** A non-blank type outside `EVENT_TYPES` is reported once, as `TypeInvalid`, when the rest is valid. */
  lemma ValidateCreateUnknownType(input: CreateEventInput)
    requires IsValidDate(input.date)
    requires !Blank(input.eventType) && !IsValidEventType(input.eventType)
    requires !Blank(input.description) && !Blank(input.patientId)
    ensures ValidateCreate(input).errors == [ValidationError(FieldType, TypeInvalid)]
  {
  }

  /** The inputs of the test suite: '15-06-2024' gives the format error, 'Fisioterapia' the type error. */
  lemma ValidateCreateExamples()
    ensures ValidateCreate(CreateEventInput("15-06-2024", "Examen", "A", "1", None, None)).errors
         == [ValidationError(FieldDate, DateFormat)]
    ensures ValidateCreate(CreateEventInput("2024-06-15", "Fisioterapia", "A", "1", None, None)).errors
         == [ValidationError(FieldType, TypeInvalid)]
  {
    DateExamples();
    NotBlankWhenFirstNotSpace("A");
    NotBlankWhenFirstNotSpace("1");
    NotBlankWhenFirstNotSpace("Fisioterapia");
    assert "Examen" == EventTypes[4];
    assert "Fisioterapia" !in EventTypes by { EventTypesExact(); }
    ValidateCreateMalformedDate(CreateEventInput("15-06-2024", "Examen", "A", "1", None, None));
    ValidateCreateUnknownType(CreateEventInput("2024-06-15", "Fisioterapia", "A", "1", None, None));
  }

  // ---- update ----

  /** On update, an absent field yields no error and a present one the error of its check. */
  lemma ValidateUpdateErrorsByField(patch: UpdateEventInput)
    ensures var errs := ValidateUpdate(patch).errors;
      && ErrorsOn(errs, FieldDate)
         == (if patch.date.None? then [] else DateCheck(patch.date.value, DateEmpty))
      && ErrorsOn(errs, FieldType)
         == (if patch.eventType.None? then [] else TypeCheck(patch.eventType.value, TypeEmpty))
      && ErrorsOn(errs, FieldDescription)
         == (if patch.description.Some? && Blank(patch.description.value)
             then [ValidationError(FieldDescription, DescriptionEmpty)] else [])
      && ErrorsOn(errs, FieldPatient)
         == (if patch.patientId.Some? && Blank(patch.patientId.value)
             then [ValidationError(FieldPatient, PatientEmpty)] else [])
  {
    var a := WhenPresent(patch.date, d => DateCheck(d, DateEmpty));
    var b := WhenPresent(patch.eventType, t => TypeCheck(t, TypeEmpty));
    var c := WhenPresent(patch.description, d => NotBlankCheck(FieldDescription, d, DescriptionEmpty));
    var d := WhenPresent(patch.patientId, p => NotBlankCheck(FieldPatient, p, PatientEmpty));
    assert ValidateUpdate(patch).errors == a + b + c + d;
    ErrorsOnParts(a, b, c, d, FieldDate);
    ErrorsOnParts(a, b, c, d, FieldType);
    ErrorsOnParts(a, b, c, d, FieldDescription);
    ErrorsOnParts(a, b, c, d, FieldPatient);
  }

  /** A patch is valid exactly when each present field passes its create-time rule. */
  lemma ValidateUpdateValidIff(patch: UpdateEventInput)
    ensures ValidateUpdate(patch).valid
        <==> && (patch.date.Some? ==> IsValidDate(patch.date.value))
             && (patch.eventType.Some? ==> IsValidEventType(patch.eventType.value))
             && (patch.description.Some? ==> !Blank(patch.description.value))
             && (patch.patientId.Some? ==> !Blank(patch.patientId.value))
  {
  }

  /** `validarActualizarEvento({})` is valid; so is a patch of flags only. */
  lemma ValidateUpdateFlagsOnly(patch: UpdateEventInput)
    requires patch.date.None? && patch.eventType.None?
    requires patch.description.None? && patch.patientId.None?
    ensures ValidateUpdate(patch) == ValidationResult(true, [])
  {
  }

  /** A present but whitespace-only description is rejected. */
  lemma ValidateUpdateBlankDescription()
    ensures ValidateUpdate(EmptyPatch.(description := Some("   "))).errors
         == [ValidationError(FieldDescription, DescriptionEmpty)]
  {
    assert AllSpace("   ");
  }
}
