/**
 * Worked examples, checked by the verifier: concrete records applied to the
 * column helpers, and client methods that drive the view and assert what the
 * handlers' contracts let a caller conclude.
 */
module Scenarios {
  import opened Wrappers
  import opened Entity
  import opened Columns
  import opened Tracker

  const Rex: Animal := Animal(Some("1"), "Rex", "Dog", None, Some(3), None, None, None, None, None)
  const Milo: Animal := Animal(Some("2"), "Milo", "Cat", None, None, None, None, None, None, None)

  /** Sorting by age puts Milo (no age, so 0) before Rex (3). */
  lemma AgeOrderOfRexAndMilo()
    ensures AgeCompare(Milo, Rex) < 0 && AgeCompare(Rex, Milo) > 0
    ensures AgeLabel(Milo.age) == "Unknown"
  {
  }

  /** The species filter over [Rex, Milo]: a Dog option, then a Cat option. */
  lemma SpeciesFilterOfRexAndMilo()
    ensures SpeciesFilters([Rex, Milo]) == [FilterOption("Dog", "Dog"), FilterOption("Cat", "Cat")]
  {
    var species: seq<string> := ["Dog", "Cat"];
    assert SpeciesOf([Rex, Milo]) == species;
    assert FirstIndex(species, "Dog") == 0;
    assert FirstIndex(species, "Cat") == 1 by { assert species[1..] == ["Cat"]; }
    DistinctIsUnique(species, species);
    var opts := SpeciesFilters([Rex, Milo]);
    assert |opts| == 2 && opts[0] == FilterOption("Dog", "Dog") && opts[1] == FilterOption("Cat", "Cat");
  }

  /** Selecting "Dog" over [Rex, Milo] keeps only Rex. */
  lemma DogFilterOfRexAndMilo()
    ensures FilterBy([Rex, Milo], "Dog") == [Rex]
  {
    assert [Rex, Milo][1..] == [Milo] && [Milo][1..] == [];
    assert FilterBy([Milo], "Dog") == [];
  }

  /**
   * The footer Cancel keeps the buffer: reopening shows "Edit Animal", and a
   * later edit of a record without a breed keeps the previous record's breed.
   */
  method FooterCancelKeepsBuffer()
  {
    var t := new AnimalTracker();
    t.FinishLoad(ListResolved(true, [Rex, Milo]));
    assert t.animals == [Rex, Milo] && !t.loading;
    var beagle := Rex.(breed := Some("Beagle"));
    t.HandleEdit(beagle);
    t.CancelFooter();
    assert !t.modalVisible && t.Title() == "Edit Animal" && t.SubmitText() == "Update Animal";
    t.HandleEdit(Milo);
    assert t.form.name == Some("Milo") && t.form.breed == Some("Beagle");
    var before := t.events;
    t.Submit(SaveResolved(true));
    assert t.events[|before|] == Requested(UpdateCall(Some("2"), SetFieldsValue(FieldsOf(beagle), Milo)));
  }

  /** The modal's close handler clears the buffer, so the next open is an add. */
  method CloseClearsBuffer()
  {
    var t := new AnimalTracker();
    t.HandleEdit(Rex);
    t.CloseModal();
    assert t.Title() == "Add New Animal" && t.form == EmptyFields;
  }

  /** A save that resolves unsuccessfully still closes the modal and reloads, without a toast. */
  method UnsuccessfulSaveStillCloses()
  {
    var t := new AnimalTracker();
    t.OpenAdd();
    t.form := SetFieldsValue(t.form, Rex);
    var before := t.events;
    t.Submit(SaveResolved(false));
    assert !t.modalVisible && t.editing == None && t.loading;
    assert t.events == before + [Requested(CreateCall(FieldsOf(Rex))), Requested(ListCall)];
  }

  /** A rejected save leaves the modal open with its buffer for a retry. */
  method RejectedSaveKeepsModal()
  {
    var t := new AnimalTracker();
    t.HandleEdit(Rex);
    t.Submit(SaveThrew);
    assert t.modalVisible && t.editing == Some(Rex) && t.form == FieldsOf(Rex);
  }

  /** An empty form never reaches the store. */
  method EmptyFormIsBlocked()
  {
    var t := new AnimalTracker();
    t.OpenAdd();
    var before := t.events;
    t.Submit(SaveResolved(true));
    assert t.events == before && t.modalVisible;
  }

  /** Confirming a delete toasts success and reloads; the record comes back if the store still has it. */
  method DeleteOnlyReloads()
  {
    var t := new AnimalTracker();
    t.FinishLoad(ListResolved(true, [Rex, Milo]));
    var writes := StoreWrites(t.events);
    t.HandleDelete(Some("1"), true);
    assert StoreWrites(t.events) == writes && t.animals == [Rex, Milo];
    t.FinishLoad(ListResolved(true, [Rex, Milo]));
    assert t.animals == [Rex, Milo] && !t.loading;
  }
}
