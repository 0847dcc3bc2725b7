# Animal Tracker view, modelled in Dafny

The repository is a single-page CRUD screen for recording observed animals.
All of its logic lives in the `AnimalTracker` React component. The component
keeps a local copy of the animal collection and re-fetches the whole list
from the entity store (`Animal.list/create/update`) after every change. It
opens a modal form for adding or editing a record, and shows the records in a
table. The table sorts by age, filters by species, colours the health tag and
shows "Unknown" fallbacks.

This project models that component in two parts:

- **`Tracker`** (`tracker.dfy`) is the view's state machine. The class
  `AnimalTracker` has one field per hook: `animals`, `loading`,
  `modalVisible`, `editing` (the editing buffer) and `form` (the form values).
  It also has an `events` log of store calls and toasts. Each handler is a
  method. An asynchronous store call becomes an outcome the caller supplies:
  `ListResolved(success, data)`, `ListThrew`, `SaveResolved(success)` or
  `SaveThrew`. `loadAnimals` is split at its `await`. `StartLoad` sets
  `loading` and requests the list. `FinishLoad(outcome)` applies the answer.
  `handleSubmit` and the delete confirmation only *start* a reload, because
  they do not await `loadAnimals()`.
  - Two ghost fields track history. `pendingLoads` counts outstanding list
    requests. `responses` records the list answers applied so far.
  - The object invariant `Valid()` says three things. The collection is always
    the data of the last successful list response (`LatestSnapshot`).
    `loading` implies a request is outstanding. Every applied response
    answered a logged request.
- **`Columns`** (`columns.dfy`) holds the pure column helpers, as functions
  with lemmas. **`Entity`** (`entity.dfy`) holds the record and the form
  values. **`Scenarios`** (`scenarios.dfy`) holds worked examples over
  concrete records, checked by the verifier.

Modelling decisions worth knowing:

- The store's `_id` property is the field `id`, because Dafny identifiers
  cannot begin with `_`. A record's `None` field is a property the object
  lacks.
- `form.setFieldsValue(record)` is a merge (`Entity.SetFieldsValue`). A
  property the record lacks leaves the form item's current value in place.
  The form is reset by Add, by the modal's close handler and by every resolved
  save. The footer Cancel does not reset it. So after Cancel, editing a record
  that lacks a property shows, and submits, the previous record's value
  (`Scenarios.FooterCancelKeepsBuffer`).
- The source's asymmetries are reproduced as written:
  - a resolved `create`/`update` closes the modal whatever its `success` flag;
  - `list` with `success: false` keeps the old collection without a toast;
  - the footer Cancel keeps the buffer, so the title and button text on the
    next open follow the stale buffer;
  - delete confirmation makes no store call at all.
- `toLowerCase` is modelled one character at a time. ASCII capitals map to
  small letters, and U+212A KELVIN SIGN maps to `k`. The Kelvin sign is the
  only non-ASCII character whose lower case is a single ASCII letter. Every
  other character is kept as it is. Comparing with `healthy`, `sick` and
  `injured` then gives the same answer as JavaScript does.
- JavaScript truthiness is written out. A string is falsy when absent or
  empty, and a number when absent or 0. So an age of 0 shows "Unknown" and
  sorts as 0.

## Model

| member | source | states |
|---|---|---|
| `Entity.SetFieldsValueMerges` | project/src/components/AnimalTracker.jsx:57 | filling the form from a record sets name and species, sets every optional item the record has, and keeps the old value of every item it lacks |
| `Entity.SetFieldsValueShowsRecord` | project/src/components/AnimalTracker.jsx:55-59 | the form shows exactly the record's fields when it was empty before, or when the record has every property |
| `Entity.StoredRecordRefills` | project/src/components/AnimalTracker.jsx:214-228 | a record with non-empty name and species fills any form so that the required rules pass |
| `Columns.ToLowerMatches` | project/src/components/AnimalTracker.jsx:77 | lower-casing a string and comparing it with a lower-case ASCII word is the same as matching the word in any letter case |
| `Columns.HealthColor` | project/src/components/AnimalTracker.jsx:76-83 | green, orange or red exactly when the value spells healthy, sick or injured in some letter case; blue exactly otherwise, a missing value included |
| `Columns.HealthColorOfSelectWords` | project/src/components/AnimalTracker.jsx:76-83 | the select's Healthy, Sick and Injured get green, orange and red |
| `Columns.HealthColorOfUnknown` | project/src/components/AnimalTracker.jsx:76-83 | the select's Unknown and the empty string get blue |
| `Columns.HealthColorOfKelvinSick` | project/src/components/AnimalTracker.jsx:77 | a spelling with the Kelvin sign lower-cases to sick and gets orange |
| `Columns.HealthLabel` | project/src/components/AnimalTracker.jsx:120 | the tag text is the health value when truthy, and "Unknown" exactly when the value is falsy or is itself "Unknown" |
| `Columns.LastSeenLabel` | project/src/components/AnimalTracker.jsx:133 | a falsy date shows "Unknown"; a truthy one shows the locale's formatting of it |
| `Columns.NatToDecimal` | project/src/components/AnimalTracker.jsx:112 | the decimal text of a number is non-empty, all digits, and has no leading zero |
| `Columns.IntToDecimalRoundTrip` | project/src/components/AnimalTracker.jsx:112 | the decimal text of every integer reads back as that integer |
| `Columns.AgeLabel` | project/src/components/AnimalTracker.jsx:112 | "Unknown" exactly when the age is missing or 0; otherwise the age's decimal text followed by " years" |
| `Columns.AgeLabelInjective` | project/src/components/AnimalTracker.jsx:112 | two truthy ages show the same text only when they are equal |
| `Columns.AgeKey` | project/src/components/AnimalTracker.jsx:111 | the sort key is 0 for a missing or zero age and the age otherwise |
| `Columns.AgeCompare` | project/src/components/AnimalTracker.jsx:111 | the comparator is negative, zero or positive exactly as the first record's key is below, equal to or above the second's |
| `Columns.AgeCompareAntisymmetric` | project/src/components/AnimalTracker.jsx:111 | swapping the arguments negates the comparator |
| `Columns.AgeCompareTransitive` | project/src/components/AnimalTracker.jsx:111 | "sorts no later than" and "sorts strictly before" are transitive |
| `Columns.AgeCompareTotal` | project/src/components/AnimalTracker.jsx:111 | any two records are ordered one way or the other |
| `Columns.AgeCompareMissingIsZero` | project/src/components/AnimalTracker.jsx:111 | a missing age compares exactly as an age of 0 does |
| `Columns.SpeciesOf` | project/src/components/AnimalTracker.jsx:96 | the species list has one entry per record, at the record's position |
| `Columns.Distinct` | project/src/components/AnimalTracker.jsx:96 | the spread of a Set holds every input value, nothing else, each once, in order of first occurrence |
| `Columns.DistinctIsUnique` | project/src/components/AnimalTracker.jsx:96 | any duplicate-free sequence of the input's values in order of first occurrence is exactly the spread of the Set |
| `Columns.SpeciesFilters` | project/src/components/AnimalTracker.jsx:96-99 | there is one option per distinct species, whose text and value are both that species |
| `Columns.FilterBy` | project/src/components/AnimalTracker.jsx:100 | selecting a value keeps every record of that species with its multiplicity, and no other record, in table order |
| `Columns.SpeciesFiltersOrdered` | project/src/components/AnimalTracker.jsx:96-99 | no option is repeated, and options come in order of the species' first appearance |
| `Columns.SpeciesFiltersSound` | project/src/components/AnimalTracker.jsx:96-99 | every option is the species of some loaded record |
| `Columns.SpeciesFiltersComplete` | project/src/components/AnimalTracker.jsx:96-99 | every loaded record's species is offered |
| `Columns.NoFilterOptionIsEmpty` | project/src/components/AnimalTracker.jsx:96-100 | selecting any offered option leaves at least one row |
| `Tracker.LatestSnapshotIsLastSuccess` | project/src/components/AnimalTracker.jsx:23-26 | the collection is the data of the last successful list response; later failed or rejected responses do not change it |
| `Tracker.LatestSnapshotWithoutSuccess` | project/src/components/AnimalTracker.jsx:10 | until a list response succeeds, the collection stays the initial empty one |
| `Tracker.SaveCall` | project/src/components/AnimalTracker.jsx:35-41 | with a buffer the submit calls update with the buffer's id and the values; without one it calls create with the values |
| `Tracker.SavedToasts` | project/src/components/AnimalTracker.jsx:37-44 | a save's success toast appears exactly when the response reports success, with the update or add text depending on the buffer |
| `Tracker.AnimalTracker.constructor` | project/src/components/AnimalTracker.jsx:10-18 | mounting starts empty, closed, with no buffer and an empty form, and begins the first load |
| `Tracker.AnimalTracker.StartLoad` | project/src/components/AnimalTracker.jsx:20-23 | loading becomes true and one list request is issued; nothing else changes |
| `Tracker.AnimalTracker.FinishLoad` | project/src/components/AnimalTracker.jsx:23-30 | loading becomes false in every case; the collection becomes the data exactly on a successful response; the error toast fires only on a rejection |
| `Tracker.AnimalTracker.LoadAnimals` | project/src/components/AnimalTracker.jsx:20-31 | the whole load: loading is false after it (that it is true during the call is `StartLoad`'s contract, which this method runs first); the collection follows the outcome as above |
| `Tracker.AnimalTracker.HandleSubmit` | project/src/components/AnimalTracker.jsx:33-53 | update or create as the buffer says; on any resolved answer the modal is hidden, the form reset, the buffer cleared and a reload issued; the toast follows the success flag; on a rejection only the error toast, with modal, buffer and form unchanged |
| `Tracker.AnimalTracker.Submit` | project/src/components/AnimalTracker.jsx:207-228 | with the required name and species filled the form's values go to the submit handler; otherwise nothing happens and no store call is made |
| `Tracker.AnimalTracker.HandleEdit` | project/src/components/AnimalTracker.jsx:55-59 | the buffer becomes the record, the record is merged into the form, the modal opens; no store call, collection and loading unchanged |
| `Tracker.AnimalTracker.HandleDelete` | project/src/components/AnimalTracker.jsx:61-73 | on confirmation a success toast and a reload, and no create or update call; the collection is unchanged until the reload answers |
| `Tracker.AnimalTracker.OpenAdd` | project/src/components/AnimalTracker.jsx:170-174 | the buffer is cleared, the form reset and the modal opened; no store call, collection unchanged |
| `Tracker.AnimalTracker.CloseModal` | project/src/components/AnimalTracker.jsx:199-203 | the modal is hidden, the form reset and the buffer cleared |
| `Tracker.AnimalTracker.CancelFooter` | project/src/components/AnimalTracker.jsx:265 | the modal is hidden; the buffer and the form values stay as they were |
| `Tracker.AnimalTracker.Title` | project/src/components/AnimalTracker.jsx:197 | the title is "Edit Animal" exactly when a buffer is held, and "Add New Animal" exactly when none is |
| `Tracker.AnimalTracker.SubmitText` | project/src/components/AnimalTracker.jsx:269 | the button reads "Update Animal" exactly when a buffer is held, and "Add Animal" exactly when none is |
| `Scenarios.AgeOrderOfRexAndMilo` | project/src/components/AnimalTracker.jsx:111-112 | a record without an age sorts before one aged 3 and shows "Unknown" |
| `Scenarios.SpeciesFilterOfRexAndMilo` | project/src/components/AnimalTracker.jsx:96-99 | a dog and a cat give the options Dog and Cat, in that order |
| `Scenarios.DogFilterOfRexAndMilo` | project/src/components/AnimalTracker.jsx:100 | selecting Dog over a dog and a cat keeps only the dog |

## Left out

- JSX markup, CSS classes, layout, icons, and the table's pagination, size changer, quick jumper and sorting state (lines 161-276). These are presentation handled by the component library.
- The name sorter (line 90). Its `localeCompare` collation depends on the locale and is not modelled.
- `toLocaleDateString` (line 133). It is a parameter of `Columns.LastSeenLabel`, because date parsing and formatting depend on the locale.
- The entity client's transport (line 2). It is a foreign remote call; only its possible outcomes are modelled.
- The confirmation dialog and toast mechanics. `HandleDelete` takes the user's answer as a parameter, and toasts are entries of the event log.
- `HandleDelete`: the catch branch at lines 69-71 is not modelled. Nothing in the `try` block can throw synchronously, so it cannot run.
- React scheduling and asynchronous interleaving. A save runs as one step, so a user action between a save call and its answer is not modelled.
- Which request a list answer belongs to is not recorded. Answers are applied in arrival order to whatever state the view is in, as the source does, so a stale or older answer can win; any finishing load clears `loading`. The store contents behind each answer are not modelled.
- Form input widgets and the numeric limits of `InputNumber` (lines 234-240). The library enforces them. The required-field rules are modelled by `Submit`.
- `Columns.AgeLabel`: ages are integers. JavaScript numbers may be fractional or NaN. JavaScript also writes integers of 1e21 or more in exponent notation, which this decimal rendering does not.
- `Entity.SetFieldsValue`: a property holding `null` or `undefined` is treated like an absent one. In the library it would overwrite the form item.
- project/src/App.jsx only wraps the view in a monetization shell, which is not part of this model.
