/**
 * The medical-event records: the closed list of event types, the stored event,
 * and the create and update inputs.
 *
 * Field names follow the model file's English names; the store, the validator
 * and their callers use the Spanish names of the same fields:
 * date = fecha, eventType = type = tipo (`type` is a Dafny keyword), description = descripcion, patientId = pacienteId,
 * isapreReimbursed = reembolsoIsapre, insuranceReimbursed = reembolsoSeguro,
 * createdAt = creadoEn, updatedAt = actualizadoEn.
 */
module MedicalEvents {
  import opened Common
  import opened Text

  /** `EVENT_TYPES`, in declaration order. */
  const EventTypes: seq<string> :=
    ["Consulta Médica", "Consulta Dental", "Urgencia", "Cirugía", "Examen", "Otro"]

  /** The `EventType` union: one constructor per entry of `EventTypes`. */
  datatype EventType = ConsultaMedica | ConsultaDental | Urgencia | Cirugia | Examen | Otro

  function Label(t: EventType): string {
    match t
    case ConsultaMedica => "Consulta Médica"
    case ConsultaDental => "Consulta Dental"
    case Urgencia => "Urgencia"
    case Cirugia => "Cirugía"
    case Examen => "Examen"
    case Otro => "Otro"
  }

  /** `EVENT_TYPES` has six distinct entries, and they are exactly the labels of the union. */
  lemma EventTypesExact()
    ensures |EventTypes| == 6
    ensures forall i, j :: 0 <= i < j < |EventTypes| ==> EventTypes[i] != EventTypes[j]
    ensures forall t: EventType :: Label(t) in EventTypes
    ensures forall s :: s in EventTypes <==> exists t: EventType :: Label(t) == s
  {
    assert EventTypes[0] == Label(ConsultaMedica);
    assert EventTypes[1] == Label(ConsultaDental);
    assert EventTypes[2] == Label(Urgencia);
    assert EventTypes[3] == Label(Cirugia);
    assert EventTypes[4] == Label(Examen);
    assert EventTypes[5] == Label(Otro);
  }

  /** No entry of `EVENT_TYPES` is blank. */
  lemma EventTypesNotBlank(s: string)
    requires s in EventTypes
    ensures !Blank(s)
  {
    NotBlankWhenFirstNotSpace(s);
  }

  /**
   * `MedicalEvent`. The type is kept as the string the caller gave, because
   * the store copies it without checking it.
   */
  datatype MedicalEvent = MedicalEvent(
    id: string,
    date: string,
    eventType: string,
    description: string,
    patientId: string,
    isapreReimbursed: bool,
    insuranceReimbursed: bool,
    createdAt: string,
    updatedAt: string)

  /** `CreateMedicalEventInput`: the reimbursement flags may be omitted. */
  datatype CreateEventInput = CreateEventInput(
    date: string,
    eventType: string,
    description: string,
    patientId: string,
    isapreReimbursed: Option<bool>,
    insuranceReimbursed: Option<bool>)

  /** `UpdateMedicalEventInput`: every field may be omitted. */
  datatype UpdateEventInput = UpdateEventInput(
    date: Option<string>,
    eventType: Option<string>,
    description: Option<string>,
    patientId: Option<string>,
    isapreReimbursed: Option<bool>,
    insuranceReimbursed: Option<bool>)

  /** `{}`: the empty patch, a legal update input. */
  const EmptyPatch := UpdateEventInput(None, None, None, None, None, None)

  /**
   * The record `crear` builds: input fields copied, omitted flags defaulting
   * to false, both timestamps set to the same `now`.
   */
  function NewEvent(id: string, input: CreateEventInput, now: string): (e: MedicalEvent)
    ensures e.id == id
    ensures e.date == input.date && e.eventType == input.eventType
    ensures e.description == input.description && e.patientId == input.patientId
    ensures e.isapreReimbursed <==> input.isapreReimbursed == Some(true)
    ensures e.insuranceReimbursed <==> input.insuranceReimbursed == Some(true)
    ensures e.createdAt == now && e.updatedAt == e.createdAt
  {
    MedicalEvent(
      id, input.date, input.eventType, input.description, input.patientId,
      input.isapreReimbursed.GetOr(false), input.insuranceReimbursed.GetOr(false),
      now, now)
  }

  /**
   * The record `actualizar` builds: each field present in the patch replaces
   * the stored one, every absent field, the id and `createdAt` are kept, and
   * `updatedAt` becomes `now`.
   */
  function ApplyPatch(e: MedicalEvent, patch: UpdateEventInput, now: string): (r: MedicalEvent)
    ensures r.id == e.id && r.createdAt == e.createdAt && r.updatedAt == now
    ensures r.date == (if patch.date.Some? then patch.date.value else e.date)
    ensures r.eventType == (if patch.eventType.Some? then patch.eventType.value else e.eventType)
    ensures r.description == (if patch.description.Some? then patch.description.value else e.description)
    ensures r.patientId == (if patch.patientId.Some? then patch.patientId.value else e.patientId)
    ensures r.isapreReimbursed == (if patch.isapreReimbursed.Some? then patch.isapreReimbursed.value else e.isapreReimbursed)
    ensures r.insuranceReimbursed == (if patch.insuranceReimbursed.Some? then patch.insuranceReimbursed.value else e.insuranceReimbursed)
  {
    e.(
      date := patch.date.GetOr(e.date),
      eventType := patch.eventType.GetOr(e.eventType),
      description := patch.description.GetOr(e.description),
      patientId := patch.patientId.GetOr(e.patientId),
      isapreReimbursed := patch.isapreReimbursed.GetOr(e.isapreReimbursed),
      insuranceReimbursed := patch.insuranceReimbursed.GetOr(e.insuranceReimbursed),
      updatedAt := now)
  }

  /** `q` applied after `p`: a field of `q` wins where both give one. */
  function ThenPatch(p: UpdateEventInput, q: UpdateEventInput): UpdateEventInput {
    UpdateEventInput(
      if q.date.Some? then q.date else p.date,
      if q.eventType.Some? then q.eventType else p.eventType,
      if q.description.Some? then q.description else p.description,
      if q.patientId.Some? then q.patientId else p.patientId,
      if q.isapreReimbursed.Some? then q.isapreReimbursed else p.isapreReimbursed,
      if q.insuranceReimbursed.Some? then q.insuranceReimbursed else p.insuranceReimbursed)
  }

  /** The empty patch only refreshes `updatedAt`. */
  lemma ApplyEmptyPatch(e: MedicalEvent, now: string)
    ensures ApplyPatch(e, EmptyPatch, now) == e.(updatedAt := now)
  {
  }

  /** Two successive updates equal one update with the merged patch. */
  lemma ApplyPatchTwice(e: MedicalEvent, p: UpdateEventInput, q: UpdateEventInput, t1: string, t2: string)
    ensures ApplyPatch(ApplyPatch(e, p, t1), q, t2) == ApplyPatch(e, ThenPatch(p, q), t2)
  {
  }

  /** Re-applying the same patch at the same time changes nothing more. */
  lemma ApplyPatchIdempotent(e: MedicalEvent, p: UpdateEventInput, now: string)
    ensures ApplyPatch(ApplyPatch(e, p, now), p, now) == ApplyPatch(e, p, now)
  {
  }
}
