# Medical event tracker: verified model of the domain and in-memory data core

This project is a Dafny model of the data core of a family medical-event tracker
(medical-data-app, TypeScript). It proves properties of that model. The modelled parts are:

- **Event types.** The closed enumeration `EVENT_TYPES`, plus the shapes of the stored
  event and of its create and update inputs (`medical_event.dfy`).
- **Validators.** The create and update validators for medical events
  (`event_validator.dfy`) and the photo-link validator (`photo_validator.dfy`). Each runs
  every field check and collects the failures. The result is valid exactly when the
  error list is empty.
- **Event store.** The in-memory medical-event store (`event_store.dfy`), a class over an
  insertion-ordered map (`ordered_map.dfy`, which models JavaScript's `Map`). It offers:
  - create with a fresh id (`ids.dfy`) and default flags;
  - lookup;
  - a filter pipeline followed by a stable sort by date, newest first (`listing.dfy`);
  - merge-update, which fails on a missing id;
  - idempotent delete.
- **Photo-link and recording stores.** Classes over the same map
  (`photo_store.dfy`, `recording_store.dfy`) with link/create, list-by-event in ascending
  `createdAt` order, and unlink/delete. What the two share is in `per_event.dfy`.
- **Photo uploader.** The in-memory uploader (`photo_uploader.dfy`). It builds a
  `memory://event-photos/<eventId>/<id>-<fileName>` URL and keeps a URL → file map. The
  model includes a parser that reads such URLs back.
- **Family members.** The constant seed list and its lookups: by id, and by name ignoring
  case (`family_members.dfy`).
- **Durations.** The `formatDuration` helper of the recordings list (`duration.dfy`).
- **String operations.** The JavaScript string operations the code relies on (`text.dfy`):
  `trim()`-blankness, `toLowerCase()`, the ordering behind `<=`/`>=`/`localeCompare`,
  `join` and splitting at a character.

## Naming and environment

Names and runtime behaviour are mapped as follows:

- **Field names.** The code is half-way through a Spanish-to-English rename. The model
  uses one field set, named after the model file:
  - `date` = `fecha`
  - `eventType` = `type` = `tipo` (`type` is a Dafny keyword)
  - `description` = `descripcion`
  - `patientId` = `pacienteId`
  - `isapreReimbursed` = `reembolsoIsapre`
  - `insuranceReimbursed` = `reembolsoSeguro`
  - `createdAt` = `creadoEn`
  - `updatedAt` = `actualizadoEn`
- **Store methods.** They are named in English: `Create`/`GetById`/`List`/`Update`/`Delete`
  stand for `crear`/`obtenerPorId`/`listar`/`actualizar`/`eliminar`.
- **Validation results.** `ValidationError(field, message)` and
  `ValidationResult(valid, errors)` stand for both `{campo, mensaje}`/`{valido, errores}` and
  `{field, message}`/`{valid, errors}`.
- **Error strings.** The field names and messages in emitted errors are the code's own
  Spanish strings.
- **Identifiers.** `uuidv4()` is the method `Ids.FreshId(used)`. It returns an identifier
  of UUID shape that is not in `used`: 36 characters, lower-case hexadecimal digits in
  groups of 8, 4, 4, 4 and 12, with '-' at positions 8, 13, 18 and 23. The stores pass
  the ids they hold; the uploader passes every id it has issued.
- **Clock.** `new Date().toISOString()` is a `now` parameter.
- **Async.** The `async` methods are modelled as synchronous.
- **Copies.** Records are values, so the defensive copies (`{ ...e }`) need no counterpart.

Facts about the code that the model reflects:

- The type labels are the Spanish strings of `EVENT_TYPES`, not English names.
- A filter is applied only when it is truthy: present and not the empty string.
- The in-memory event store has no reimbursement-flag filters.
- Photo links carry `googlePhotosUrl`/`googlePhotosId`.
- The in-memory store does not validate its input, so a stored event may hold any
  date or type string.
- Events with equal dates are listed in a defined order: `sort` is stable, so they keep
  the map's insertion order. `Listing.SortBy` is stable in the same way.

## Model

| member | source | states |
|---|---|---|
| MedicalEvents.EventTypesExact | src/domain/models/medical-event.ts:1-10 | `EVENT_TYPES` has exactly six pairwise distinct entries, and they are exactly the labels of the `EventType` union |
| MedicalEvents.EventTypesNotBlank | src/domain/models/medical-event.ts:1-8 | no entry of `EVENT_TYPES` is blank, so a valid type never takes the "obligatorio" branch |
| MedicalEvents.NewEvent | src/infra/memory/medical-event-store.ts:13-24 | the created record copies the input fields and gets the given id; an omitted flag becomes false and a given flag is kept; `createdAt == updatedAt == now` |
| MedicalEvents.ApplyPatch | src/infra/memory/medical-event-store.ts:57-66 | each field present in the patch replaces the stored one; every absent field, the id and `createdAt` are kept; `updatedAt` becomes `now` |
| MedicalEvents.ApplyEmptyPatch | src/domain/models/medical-event.ts:33-40 | the empty patch `{}` is a legal update and only refreshes `updatedAt` |
| MedicalEvents.ApplyPatchTwice | src/infra/memory/medical-event-store.ts:57-66 | two successive updates equal one update with the merged patch, the later field winning |
| MedicalEvents.ApplyPatchIdempotent | src/infra/memory/medical-event-store.ts:57-66 | re-applying the same patch at the same time changes nothing more |
| EventValidator.IsValidDate | src/domain/validators/medical-event-validator.ts:14-20 | a date is accepted exactly when it matches `^\d{4}-\d{2}-\d{2}$` with a month of 01–12 and a day of 01–31; an accepted date has ten characters and is never blank |
| EventValidator.IsValidEventType | src/domain/validators/medical-event-validator.ts:22-24 | an accepted type is never blank, so it never takes the "obligatorio" branch |
| EventValidator.DateExamples | src/domain/validators/medical-event-validator.ts:14-20 | '15-06-2024' and '2024-13-45' are rejected, '2024-06-15' is accepted; '' and '   ' are blank |
| EventValidator.ValidateCreate | src/domain/validators/medical-event-validator.ts:26-53 | `valido` is true exactly when `errores` is empty |
| EventValidator.ValidateUpdate | src/domain/validators/medical-event-validator.ts:55-86 | `valido` is true exactly when `errores` is empty |
| EventValidator.InFieldOrderParts | src/domain/validators/medical-event-validator.ts:29-50 | four per-field error lists, each of at most one error on its own field, concatenate into a list in field order |
| EventValidator.ValidateCreateFieldOrder | src/domain/validators/medical-event-validator.ts:29-50 | at most one error per field, at most four errors, in the order fecha, tipo, descripcion, pacienteId |
| EventValidator.ValidateUpdateFieldOrder | src/domain/validators/medical-event-validator.ts:58-83 | the same ordering and bound for updates |
| EventValidator.ErrorsOnParts | src/domain/validators/medical-event-validator.ts:29-50 | the errors on one field of the concatenated list are exactly that field's own check's errors |
| EventValidator.CreateErrorsOn | src/domain/validators/medical-event-validator.ts:29-50 | the errors a create input has on one field are exactly those of that field's own check, and there are none on any other field name |
| EventValidator.ValidateCreateErrorsByField | src/domain/validators/medical-event-validator.ts:29-50 | per field, the errors are exactly the following: a blank fecha gives "obligatoria", a non-blank invalid one the format error; a blank tipo gives "obligatorio", a non-blank unknown one 'Tipo inválido'; a blank descripcion or pacienteId gives its "obligatoria"/"obligatorio" error; a field that passes gives none |
| EventValidator.ValidateCreateValidIff | src/domain/validators/medical-event-validator.ts:26-53 | a create input is valid if and only if the date is valid, the type is in `EVENT_TYPES`, and description and patient are not blank |
| EventValidator.ValidateCreateIgnoresFlags | src/domain/validators/medical-event-validator.ts:26-53 | the reimbursement flags never change the result |
| EventValidator.ValidateCreateAllBlank | src/domain/validators/medical-event-validator.ts:29-50 | an all-blank input yields exactly the four "required" errors, in field order |
| EventValidator.ValidateCreateMalformedDate | src/domain/validators/medical-event-validator.ts:29-33 | a non-blank fecha that `isValidDate` rejects yields the format error, and an otherwise valid input yields no other error |
| EventValidator.ValidateCreateUnknownType | src/domain/validators/medical-event-validator.ts:35-42 | a non-blank tipo outside `EVENT_TYPES` yields exactly one 'Tipo inválido' error, on tipo, when the rest is valid |
| EventValidator.ValidateCreateExamples | src/domain/validators/medical-event-validator.ts:29-42 | '15-06-2024' with an otherwise valid input gives only the format error; 'Fisioterapia' gives only the 'Tipo inválido' error |
| EventValidator.ValidateUpdateErrorsByField | src/domain/validators/medical-event-validator.ts:58-83 | an absent field yields no error; a present one yields exactly the errors of its check, with the "no puede estar vacía/vacío" message when blank |
| EventValidator.ValidateUpdateValidIff | src/domain/validators/medical-event-validator.ts:55-86 | a patch is valid if and only if each present field passes its rule |
| EventValidator.ValidateUpdateFlagsOnly | src/domain/validators/medical-event-validator.ts:55-86 | `{}` and any patch of flags only are valid with no errors |
| EventValidator.ValidateUpdateBlankDescription | src/domain/validators/medical-event-validator.ts:77-79 | a present description '   ' yields exactly the descripcion error |
| PhotoValidator.MissingRequired | src/domain/validators/event-photo-validator.ts:7-17 | no error is reported exactly when no required field is blank, and there is at most one error per field |
| PhotoValidator.MissingRequiredThree | src/domain/validators/event-photo-validator.ts:7-17 | the three checks contribute their errors in sequence |
| PhotoValidator.ValidateLinkPhoto | src/domain/validators/event-photo-validator.ts:4-20 | the pushed errors are the errors of the blank required fields in checking order, and `valid` holds exactly when there are none |
| PhotoValidator.LinkPhotoValidIff | src/domain/validators/event-photo-validator.ts:19 | no errors if and only if eventId, googlePhotosUrl and googlePhotosId are all non-blank |
| PhotoValidator.ErrorsOnParts3 | src/domain/validators/event-photo-validator.ts:7-17 | the errors on one field of the three concatenated checks are that field's own |
| PhotoValidator.LinkPhotoErrorsByField | src/domain/validators/event-photo-validator.ts:7-17 | each required field yields exactly one error, on itself, when blank, and none otherwise |
| PhotoValidator.LinkPhotoAllBlank | src/domain/validators/event-photo-validator.ts:7-19 | all three blank gives exactly three errors, in the order eventId, googlePhotosUrl, googlePhotosId |
| PhotoValidator.LinkPhotoIgnoresDescription | src/domain/validators/event-photo-validator.ts:4-20 | the description, present or omitted, never changes the errors |
| Text.Blank | src/domain/validators/medical-event-validator.ts:29 | the blank test (`!x` or `!x.trim()`) holds exactly when every character is whitespace, the empty string included |
| Text.TrimEmptyIff | src/domain/validators/medical-event-validator.ts:29 | `trim()` leaves nothing exactly when every character is whitespace |
| Text.Trim | src/domain/validators/medical-event-validator.ts:29 | the trimmed string is no longer than the input and neither starts nor ends with whitespace |
| Text.TrimStartSuffix | src/domain/validators/medical-event-validator.ts:29 | trimming the start drops only leading whitespace: the rest is a suffix that does not start with whitespace |
| Text.TrimEndPrefix | src/domain/validators/medical-event-validator.ts:29 | trimming the end drops only trailing whitespace: the rest is a prefix that does not end with whitespace |
| Text.ToLower | src/infra/supabase/family-member-store.ts:22 | `toLowerCase()` keeps the length, leaves no upper-case letter, maps each upper-case letter to a lower-case one and keeps every other character |
| Text.LexLe | src/infra/memory/medical-event-store.ts:44-50 | a prefix comes first, and a string ordered before another does not start with a larger character |
| Text.NotBlankWhenFirstNotSpace | src/domain/validators/medical-event-validator.ts:29 | a string starting with a non-whitespace character passes the blank test |
| Text.ToLowerIdempotent | src/infra/supabase/family-member-store.ts:22 | lower-casing twice is lower-casing once |
| Text.ToLowerOfUpper | src/infra/supabase/family-member-store.ts:22 | upper-casing first does not change the lower-case form |
| Text.LexLeRefl | src/infra/memory/medical-event-store.ts:44-47 | every string is ordered before itself, so the date bounds are inclusive |
| Text.LexLeTotal | src/infra/memory/medical-event-store.ts:50 | the string order compares any two strings |
| Text.LexLeAntisym | src/infra/memory/medical-event-store.ts:50 | strings ordered both ways are equal |
| Text.LexLeTrans | src/infra/memory/medical-event-store.ts:50 | the string order is transitive |
| Text.SplitAt | src/infra/memory/photo-uploader.ts:9 | splitting at the first `c` gives a prefix free of `c` and the rest, and reassembles to the input; it fails exactly when `c` does not occur |
| Text.SplitAtJoin | src/infra/memory/photo-uploader.ts:9 | joining a `c`-free prefix, `c` and a rest splits back into the same two parts |
| Listing.Where | src/infra/memory/medical-event-store.ts:37-48 | `filter` returns no more elements than it was given, and each of them satisfies the predicate |
| Listing.WhereMembers | src/infra/memory/medical-event-store.ts:37-48 | `filter` keeps exactly the elements satisfying the predicate, each as often as it occurred, and nothing else |
| Listing.WhereAppend | src/infra/memory/recording-store.ts:22-23 | filtering distributes over concatenation |
| Listing.WhereWhere | src/infra/memory/medical-event-store.ts:37-48 | two successive filters equal one filter by the conjunction |
| Listing.WhereExt | src/infra/memory/medical-event-store.ts:37-48 | predicates that agree everywhere filter alike |
| Listing.WhereAll | src/infra/memory/medical-event-store.ts:35 | with no filter applied, the values pass through unchanged |
| Listing.WhereNone | src/infra/memory/event-photo-store.ts:22 | filtering by a predicate nothing satisfies gives the empty list |
| Listing.WhereSkip | src/infra/memory/recording-store.ts:29 | removing an element the predicate rejects leaves the filtered result unchanged |
| Listing.WhereUpdate | src/infra/memory/medical-event-store.ts:67 | replacing one element replaces it in the filtered result, as far as old and new pass the predicate |
| Listing.SortBy | src/infra/memory/medical-event-store.ts:50 | the sorted list is a permutation of the input (same multiset) and ordered by the key, ascending or descending |
| Listing.Insert | src/infra/memory/medical-event-store.ts:50 | inserting adds exactly one occurrence of the element |
| Listing.InsertSorted | src/infra/memory/medical-event-store.ts:50 | inserting into a sorted list keeps it sorted |
| Listing.WhereSortBy | src/infra/memory/medical-event-store.ts:34-51 | filtering after sorting equals sorting after filtering, ties included |
| Listing.DistinctNoDuplicates | src/infra/memory/medical-event-store.ts:35 | a list of pairwise distinct values has no duplicates |
| Listing.NoDuplicatesSub | src/infra/memory/medical-event-store.ts:34-51 | a sub-multiset of a duplicate-free list is duplicate-free |
| OrderedMaps.Empty | src/infra/memory/medical-event-store.ts:10 | `new Map()` is well formed and empty |
| OrderedMaps.Get | src/infra/memory/medical-event-store.ts:30 | on a well-formed map `get` returns a value exactly for a listed key, and that value is one of the listed values |
| OrderedMaps.Set | src/infra/memory/medical-event-store.ts:25 | `set` maps the key to the value and keeps the map well formed; a new key goes last, an existing key keeps its place |
| OrderedMaps.Delete | src/infra/memory/medical-event-store.ts:72 | `delete` removes exactly that key and is a no-op when it is absent |
| OrderedMaps.RemoveAtValid | src/infra/memory/medical-event-store.ts:72 | dropping one key from both the key order and the entries keeps the map well formed |
| OrderedMaps.DeleteIdempotent | src/infra/memory/medical-event-store.ts:71-73 | deleting twice is deleting once |
| OrderedMaps.Values | src/infra/memory/medical-event-store.ts:35 | `Array.from(values())` lists one value per key, in key-insertion order |
| OrderedMaps.ValuesMembers | src/infra/memory/medical-event-store.ts:35 | a value is listed exactly when some key maps to it |
| OrderedMaps.ValuesSetNew | src/infra/memory/medical-event-store.ts:25 | setting a new key appends its value to the listing |
| OrderedMaps.ValuesSetExisting | src/infra/memory/medical-event-store.ts:67 | setting an existing key replaces its value in place |
| OrderedMaps.ValuesDelete | src/infra/memory/medical-event-store.ts:72 | deleting a key drops its value and keeps the rest in order |
| OrderedMaps.ValuesDistinct | src/infra/memory/medical-event-store.ts:35 | records stored under their own distinct ids are listed without repetition |
| OrderedMaps.KeysCount | src/infra/memory/medical-event-store.ts:35 | the listing is as long as the map has entries |
| Ids.Hex | src/infra/memory/photo-uploader.ts:8 | `k` hexadecimal digits, lower case |
| Ids.HexInjective | src/infra/memory/photo-uploader.ts:8 | below 16^k, distinct numbers have distinct `k`-digit hexadecimal forms |
| Ids.Uuid | src/infra/memory/photo-uploader.ts:8 | every identifier the source produces has the 8-4-4-4-12 UUID shape |
| Ids.UuidInjective | src/infra/memory/photo-uploader.ts:8 | the source never produces the same identifier for two counts |
| Ids.FreshId | src/infra/memory/medical-event-store.ts:15 | the generated id has the UUID shape of `uuidv4()` and is not among those in use |
| EventStore.Matches | src/infra/memory/medical-event-store.ts:37-48 | with no filters every event matches; an event that matches both `desde` and `hasta` shows `desde <= hasta` |
| EventStore.Listar | src/infra/memory/medical-event-store.ts:34-51 | `listar` returns at most the stored events, dates non-increasing (its membership and permutation are `ListarSpec`) |
| EventStore.FilterStepsIsWhere | src/infra/memory/medical-event-store.ts:37-48 | the four conditional filter steps equal one filter by `Matches`, the conjunction of the truthy filters with inclusive date bounds |
| EventStore.StageWhere | src/infra/memory/medical-event-store.ts:37-48 | one conditional filter step narrows a filter by a conjunct |
| EventStore.ListarSpec | src/infra/memory/medical-event-store.ts:34-51 | `listar(f)` is the stable date-descending sort of the matching events: exactly the matching values, as a permutation, dates non-increasing |
| EventStore.ListarNoFilters | src/infra/memory/medical-event-store.ts:34-51 | without filters every stored event is listed, so the length equals the number of events |
| EventStore.ListarIsFilteredFullList | src/infra/memory/medical-event-store.ts:34-51 | `listar(f) == listar().filter(matches(f))`, including the order |
| EventStore.ListarNoDuplicates | src/infra/memory/medical-event-store.ts:34-51 | no event is listed twice |
| EventStore.ListarAfterCreate | src/infra/memory/medical-event-store.ts:12-27 | a created event joins every listing it matches and nothing else changes there |
| EventStore.ListarAfterUpdate | src/infra/memory/medical-event-store.ts:53-69 | an update swaps the old record for the new one in every listing, as far as each matches |
| EventStore.ListarAfterDelete | src/infra/memory/medical-event-store.ts:71-73 | after `eliminar(id)` no listing contains an event with that id |
| EventStore.InMemoryMedicalEventStore.constructor | src/infra/memory/medical-event-store.ts:10 | the store starts empty |
| EventStore.InMemoryMedicalEventStore.Create | src/infra/memory/medical-event-store.ts:12-27 | the id is not already stored; the record has the input's fields, flags defaulted to false, and `creadoEn == actualizadoEn == now`; exactly that one entry is added, last; `obtenerPorId` then returns it |
| EventStore.InMemoryMedicalEventStore.GetById | src/infra/memory/medical-event-store.ts:29-32 | a record comes back exactly when the id is stored, and it carries that id; otherwise null |
| EventStore.InMemoryMedicalEventStore.List | src/infra/memory/medical-event-store.ts:34-51 | exactly the stored events passing every truthy filter, newest date first, no duplicates; without filters as many as are stored |
| EventStore.InMemoryMedicalEventStore.Update | src/infra/memory/medical-event-store.ts:53-69 | an absent id fails with "Evento <id> no encontrado" and the map is unchanged; otherwise the record becomes the patched one in the same position and no other record changes |
| EventStore.InMemoryMedicalEventStore.Delete | src/infra/memory/medical-event-store.ts:71-73 | the map becomes `Map.delete` of the old one: the entry goes, the remaining keys keep their insertion order, and an absent id changes nothing; `obtenerPorId` then returns null |
| PerEvent.ListByEvent | src/infra/memory/event-photo-store.ts:20-25 | `listByEvent(e)` returns at most the stored records, all of event e, `createdAt` non-decreasing |
| PerEvent.ListByEventSpec | src/infra/memory/event-photo-store.ts:20-25 | `listByEvent(e)` holds exactly the records of event e, as a permutation of the filtered values, `createdAt` non-decreasing |
| PerEvent.ListByEventAppendOther | src/infra/memory/recording-store.ts:17 | adding a record of another event leaves this event's list unchanged |
| PerEvent.ListByEventAppendSame | src/infra/memory/recording-store.ts:17 | adding a record of the event adds it once to the event's list |
| PerEvent.ListByEventRemoveOther | src/infra/memory/recording-store.ts:29 | removing a record of another event leaves this event's list unchanged |
| PerEvent.ListByEventOfMap | src/infra/memory/recording-store.ts:21-26 | over the store: exactly the event's stored records, as a permutation of the filtered values, oldest first, and empty when it has none |
| PerEvent.ListByEventNoDuplicates | src/infra/memory/recording-store.ts:21-26 | when every record is stored under its own id, the event's list shows each record once |
| PerEvent.ListAfterAdd | src/infra/memory/event-photo-store.ts:7-18 | a record stored under a new id joins its event's list; every other event's list is unchanged |
| PerEvent.ListAfterRemove | src/infra/memory/event-photo-store.ts:20-29 | after removing an id no list shows that record; lists of other events are unchanged |
| PhotoStore.InMemoryEventPhotoStore.constructor | src/infra/memory/event-photo-store.ts:5 | the store starts empty |
| PhotoStore.InMemoryEventPhotoStore.Link | src/infra/memory/event-photo-store.ts:7-18 | a fresh id; eventId, googlePhotosUrl, googlePhotosId and description copied; `createdAt == now`; exactly that entry added; the link joins its event's list and other events' lists are unchanged |
| PhotoStore.InMemoryEventPhotoStore.ListByEvent | src/infra/memory/event-photo-store.ts:20-25 | exactly the event's links, each once, `createdAt` ascending, empty when there are none |
| PhotoStore.InMemoryEventPhotoStore.Unlink | src/infra/memory/event-photo-store.ts:27-29 | the map becomes `Map.delete` of the old one: only that entry goes, the remaining keys keep their insertion order, a no-op when absent; afterwards no list shows it, and other events' lists are unchanged |
| RecordingStore.InMemoryRecordingStore.constructor | src/infra/memory/recording-store.ts:5 | the store starts empty |
| RecordingStore.InMemoryRecordingStore.Create | src/infra/memory/recording-store.ts:7-19 | a fresh id; eventId, recordingUrl, fileName, durationSeconds and description copied unchanged; exactly that entry added; other events' lists unchanged |
| RecordingStore.InMemoryRecordingStore.ListByEvent | src/infra/memory/recording-store.ts:21-26 | exactly the event's recordings, each once, `createdAt` ascending, empty when there are none |
| RecordingStore.InMemoryRecordingStore.Delete | src/infra/memory/recording-store.ts:28-30 | the map becomes `Map.delete` of the old one: only that entry goes, the remaining keys keep their insertion order, a no-op when absent (so idempotent); other events' lists unchanged |
| PhotoUploader.ParseAfterPrefix | src/infra/memory/photo-uploader.ts:9 | a parsed path reassembles as `<eventId>/<id>-<fileName>`, with no '/' in the event id and a 36-character id |
| PhotoUploader.ParsePhotoUrl | src/infra/memory/photo-uploader.ts:9 | whatever parses is exactly the URL built from its parts |
| PhotoUploader.ParsePhotoUrlRoundTrip | src/infra/memory/photo-uploader.ts:9 | a URL built from an event id without '/', an id of UUID shape and any file name parses back to its parts |
| PhotoUploader.PhotoUrlInjective | src/infra/memory/photo-uploader.ts:8-9 | for event ids without '/' and ids of UUID shape, distinct ids, event ids or file names give distinct URLs |
| PhotoUploader.PhotoUrlContains | src/infra/memory/photo-uploader.ts:9-11 | the URL holds the event id right after the prefix and ends with the file name |
| PhotoUploader.InMemoryPhotoUploader.constructor | src/infra/memory/photo-uploader.ts:5 | no files at first |
| PhotoUploader.InMemoryPhotoUploader.Upload | src/infra/memory/photo-uploader.ts:7-12 | returns `file.name` and the URL built from the event id, a UUID-shaped id never issued before and the name; records url ↦ (eventId, fileName) and changes no other key; when no event id holds '/', the URL is not already a key |
| PhotoUploader.InMemoryPhotoUploader.Delete | src/infra/memory/photo-uploader.ts:14-16 | removes the URL if present and otherwise changes nothing, so a second delete is a no-op; issued ids stay issued |
| FamilyMembers.Find | src/infra/supabase/family-member-store.ts:17 | `find` returns the first element satisfying the predicate, and undefined exactly when none does |
| FamilyMembers.FirstMatchShift | src/infra/supabase/family-member-store.ts:17 | a first match in the tail is the first match when the head does not match |
| FamilyMembers.GetFamilyMembers | src/infra/supabase/family-member-store.ts:12-14 | four members, all from the seed, with ids '1' to '4' |
| FamilyMembers.GetFamilyMemberById | src/infra/supabase/family-member-store.ts:16-18 | a seed member with that id, or undefined exactly when no member has it |
| FamilyMembers.GetFamilyMemberByName | src/infra/supabase/family-member-store.ts:20-24 | a seed member whose lower-cased name equals the lower-cased query, or undefined exactly when none does |
| FamilyMembers.SeedIdsDistinct | src/infra/supabase/family-member-store.ts:5-10 | the seed ids are distinct, and looking up each one finds its member |
| FamilyMembers.UnknownIdNotFound | src/infra/supabase/family-member-store.ts:16-18 | id '999' is not found |
| FamilyMembers.ByNameIgnoresCase | src/infra/supabase/family-member-store.ts:20-24 | upper- or lower-casing the query finds the same member |
| FamilyMembers.ByNameExamples | src/infra/supabase/family-member-store.ts:20-24 | 'ALEJANDRO' finds member '1'; 'Pedro' finds nothing |
| Duration.ShowNat | src/ui/components/RecordingsList.tsx:10-11 | `toString()` of a non-negative integer is a non-empty digit string, one digit below 10 and two below 100 |
| Duration.PadStart2 | src/ui/components/RecordingsList.tsx:10-11 | `padStart(2, '0')` keeps a string of two or more characters and puts exactly enough '0's in front of a shorter one to reach two |
| Duration.FormatDuration | src/ui/components/RecordingsList.tsx:8-13 | the text is empty exactly for undefined and 0; otherwise it has at least five characters and contains ':' |
| Duration.JsRem60 | src/ui/components/RecordingsList.tsx:11 | JavaScript `% 60`: in 0..59 for non-negative input, with the dividend's sign and the same residue otherwise |
| Duration.DigitsValueShowNat | src/ui/components/RecordingsList.tsx:10-11 | reading the digits of `toString()` gives the number back |
| Duration.DigitsValueLeadingZero | src/ui/components/RecordingsList.tsx:10-11 | a leading '0' from padding does not change the value |
| Duration.PaddedValue | src/ui/components/RecordingsList.tsx:10-11 | a padded number is all digits and reads back to the number |
| Duration.FormatDurationEmpty | src/ui/components/RecordingsList.tsx:9 | undefined and 0 give the empty string |
| Duration.FormatDurationPositive | src/ui/components/RecordingsList.tsx:10-12 | for n > 0 the text is padded `floor(n/60)`, ':', padded `n % 60`; reading it back gives `M * 60 + S == n` with `S < 60` |
| Duration.FormatDurationLength | src/ui/components/RecordingsList.tsx:10-12 | for 0 < n < 6000 the text has five characters, ':' in the middle |
| Duration.FormatDurationInjective | src/ui/components/RecordingsList.tsx:8-13 | distinct positive durations are shown differently |
| Duration.FormatDurationNegative | src/ui/components/RecordingsList.tsx:10-12 | -5 is shown as "-1:-5" (floor division, truncating remainder) and 90 as "01:30" |

## Left out

- Supabase-backed stores, the Supabase client and photo storage: filtering and ordering there are done by a foreign query builder and server. These files are not part of this model.
- `src/infra/store-provider.ts`: a dispatcher on a module-level nullable client. It calls method names the in-memory class does not define.
- React UI, the hooks, `App.tsx`, `AudioRecorder.tsx` (media and timer APIs), the Google Photos picker and client, and the CLI: rendering, browser APIs, network and console I/O.
- Interface-only files and re-exports, and `createFamilyMember`: they contain no behaviour.
- Time: `now` is a parameter, so nothing is stated about successive timestamps increasing.
- Identifiers: `uuidv4()` randomness is not modelled. The model's source counts through the last group of hexadecimal digits, so its ids all share the first four groups.
- Ids.FreshId: requires fewer than 16^12 identifiers in use. A random UUID can in principle collide with one in use; the model's identifiers never do.
- EventStore.InMemoryMedicalEventStore.Create: requires fewer than 16^12 stored events, as Ids.FreshId does. The id may equal the id of an event deleted earlier.
- PhotoStore.InMemoryEventPhotoStore.Link: the same two limits hold for links and link ids.
- RecordingStore.InMemoryRecordingStore.Create: the same two limits hold for recordings and recording ids.
- PhotoUploader.InMemoryPhotoUploader.Upload: requires fewer than 16^12 ids issued, as Ids.FreshId does. The URL is shown fresh only when no stored event id contains '/'; an event id with '/' can make two uploads share a URL.
- PhotoUploader.PhotoUrlInjective: the URL determines its parts only when the event id has no '/'. Ids of UUID shape contain '-', so the id is read as the 36 characters after the event id.
- PhotoUploader.ParsePhotoUrlRoundTrip: covers event ids without '/'. With a '/' in the event id the path cannot be split back unambiguously.
- EventValidator.IsValidDate: checks the `YYYY-MM-DD` shape, a month of 01–12 and a day of 01–31. How the JavaScript `Date` parser treats days past the end of a month (such as 2024-02-30) depends on the engine and is not modelled.
- Text.Blank: whitespace is ASCII only (space, tab, LF, VT, FF, CR). The Unicode spaces that `trim()` also strips are not modelled.
- Text.ToLower: case mapping covers ASCII letters only. Non-ASCII letters are not mapped.
- Text.LexLe: stands for both `<=`/`>=` and `localeCompare`. Both agree on zero-padded ISO dates and timestamps, but not on arbitrary strings. Strings are sequences of code points, not UTF-16 code units.
- Duration.FormatDuration: the duration is an unbounded whole number. Fractional seconds and NaN, which JavaScript numbers allow, are not modelled. Only safe integers (|n| ≤ 2^53 − 1) are modelled faithfully: beyond them a JavaScript number loses precision, `toString()` prints rounded digits, and from 1e21 on it switches to exponent notation. FormatDurationPositive's read-back and FormatDurationInjective hold for the model, not for the code, at those sizes.
- Duration.FormatDurationPositive: the read-back matches the code only for safe integers, for the reason above.
- Duration.FormatDurationInjective: matches the code only for safe integers, for the reason above.
- RecordingStore.EventRecording: `durationSeconds` is an optional integer for the same reason.
- A `File` is represented by its name, the only part the uploader reads.
- Defensive copies and `async`/`Promise`: records are immutable values and every operation completes synchronously, so aliasing and interleaving are not modelled.
