/**
 * The animal record kept by the entity store, and the values held by the
 * tracker's modal form. A field that is `None` is a property the JavaScript
 * object does not have.
 */
module Entity {
  import opened Wrappers

  /** A stored record; `id` is the store's `_id`, absent before the first save. */
  datatype Animal = Animal(
    id: Option<string>,
    name: string,
    species: string,
    breed: Option<string>,
    age: Option<int>,
    weight: Option<real>,
    health: Option<string>,
    location: Option<string>,
    lastSeen: Option<string>,
    notes: Option<string>)

  /** The nine named form items; these are the `values` handed to `onFinish`. */
  datatype Fields = Fields(
    name: Option<string>,
    species: Option<string>,
    breed: Option<string>,
    age: Option<int>,
    weight: Option<real>,
    health: Option<string>,
    location: Option<string>,
    lastSeen: Option<string>,
    notes: Option<string>)

  /** What `form.resetFields()` leaves behind: the form has no initial values. */
  const EmptyFields: Fields := Fields(None, None, None, None, None, None, None, None, None)

  /** The record's own values for the nine form items. */
  function FieldsOf(a: Animal): Fields {
    Fields(Some(a.name), Some(a.species), a.breed, a.age, a.weight,
           a.health, a.location, a.lastSeen, a.notes)
  }

  /** True when the record has every optional property. */
  predicate Complete(a: Animal) {
    a.breed.Some? && a.age.Some? && a.weight.Some? && a.health.Some? &&
    a.location.Some? && a.lastSeen.Some? && a.notes.Some?
  }

  function Overlay<T>(incoming: Option<T>, current: Option<T>): Option<T> {
    if incoming.Some? then incoming else current
  }

  /**
   * `form.setFieldsValue(a)`: the form store is merged with the record, so a
   * property the record lacks leaves the form item's current value in place.
   */
  function SetFieldsValue(current: Fields, a: Animal): Fields {
    Fields(Some(a.name), Some(a.species),
           Overlay(a.breed, current.breed),
           Overlay(a.age, current.age),
           Overlay(a.weight, current.weight),
           Overlay(a.health, current.health),
           Overlay(a.location, current.location),
           Overlay(a.lastSeen, current.lastSeen),
           Overlay(a.notes, current.notes))
  }

  /** A string the `required` rule accepts: present and not empty. */
  predicate Filled(s: Option<string>) {
    s.Some? && s.value != ""
  }

  /** The form's validation rules: `name` and `species` are required. */
  predicate RequiredFilled(f: Fields) {
    Filled(f.name) && Filled(f.species)
  }

  /**
   * `setFieldsValue` gives every item the record's value when the record has
   * it, and otherwise keeps the item's old value; the required items are
   * always filled from the record.
   */
  lemma SetFieldsValueMerges(current: Fields, a: Animal)
    ensures var r := SetFieldsValue(current, a);
      && r.name == Some(a.name) && r.species == Some(a.species)
      && (a.breed.Some? ==> r.breed == a.breed) && (a.breed.None? ==> r.breed == current.breed)
      && (a.age.Some? ==> r.age == a.age) && (a.age.None? ==> r.age == current.age)
      && (a.weight.Some? ==> r.weight == a.weight) && (a.weight.None? ==> r.weight == current.weight)
      && (a.health.Some? ==> r.health == a.health) && (a.health.None? ==> r.health == current.health)
      && (a.location.Some? ==> r.location == a.location) && (a.location.None? ==> r.location == current.location)
      && (a.lastSeen.Some? ==> r.lastSeen == a.lastSeen) && (a.lastSeen.None? ==> r.lastSeen == current.lastSeen)
      && (a.notes.Some? ==> r.notes == a.notes) && (a.notes.None? ==> r.notes == current.notes)
  {
  }

  /**
   * The form shows exactly the record's values when it was empty before, or
   * when the record has every property; otherwise stale items can remain.
   */
  lemma SetFieldsValueShowsRecord(current: Fields, a: Animal)
    requires current == EmptyFields || Complete(a)
    ensures SetFieldsValue(current, a) == FieldsOf(a)
  {
  }

  /** A record that came from a valid form passes the required rules again,
      whatever the form held before. */
  lemma StoredRecordRefills(current: Fields, a: Animal)
    requires a.name != "" && a.species != ""
    ensures RequiredFilled(SetFieldsValue(current, a))
  {
  }
}
