/**
 * The tracker view's state and its event handlers. The entity store's
 * asynchronous calls are replaced by the outcome the caller supplies, so each
 * handler is one deterministic step; toasts and store calls are recorded in
 * an event log.
 */
module Tracker {
  import opened Wrappers
  import opened Entity

  /** What `Animal.list()` came to: a response, or a rejected promise. */
  datatype ListOutcome = ListResolved(success: bool, data: seq<Animal>) | ListThrew

  /** What `Animal.create(values)` or `Animal.update(id, values)` came to. */
  datatype SaveOutcome = SaveResolved(success: bool) | SaveThrew

  /** The calls the view makes on the entity store; there is no delete call. */
  datatype Call = ListCall | CreateCall(values: Fields) | UpdateCall(id: Option<string>, values: Fields)

  datatype Level = Success | Error

  datatype Event = Requested(call: Call) | Toast(level: Level, text: string)

  const LoadFailed: string := "Failed to load animals"
  const Updated: string := "Animal updated successfully"
  const Added: string := "Animal added successfully"
  const SaveFailed: string := "Failed to save animal"
  const Deleted: string := "Animal deleted successfully"

  predicate Succeeded(o: ListOutcome) {
    o.ListResolved? && o.success
  }

  /** The collection after a history of list responses, starting from `[]`. */
  function LatestSnapshot(rs: seq<ListOutcome>): seq<Animal> {
    if rs == [] then []
    else if Succeeded(rs[|rs| - 1]) then rs[|rs| - 1].data
    else LatestSnapshot(rs[..|rs| - 1])
  }

  /** The collection is the data of the last successful response ... */
  lemma {:induction false} LatestSnapshotIsLastSuccess(rs: seq<ListOutcome>, i: nat)
    requires i < |rs| && Succeeded(rs[i])
    requires forall j :: i < j < |rs| ==> !Succeeded(rs[j])
    ensures LatestSnapshot(rs) == rs[i].data
  {
    if i < |rs| - 1 {
      LatestSnapshotIsLastSuccess(rs[..|rs| - 1], i);
    }
  }

  /** ... and stays empty while no response has succeeded. */
  lemma {:induction false} LatestSnapshotWithoutSuccess(rs: seq<ListOutcome>)
    requires forall j :: 0 <= j < |rs| ==> !Succeeded(rs[j])
    ensures LatestSnapshot(rs) == []
  {
    if rs != [] {
      LatestSnapshotWithoutSuccess(rs[..|rs| - 1]);
    }
  }

  /** Number of list requests in an event log. */
  function ListRequests(log: seq<Event>): nat {
    if log == [] then 0
    else ListRequests(log[..|log| - 1]) + if log[|log| - 1] == Requested(ListCall) then 1 else 0
  }

  /** Number of create and update requests in an event log. */
  function StoreWrites(log: seq<Event>): nat {
    if log == [] then 0
    else StoreWrites(log[..|log| - 1]) + if log[|log| - 1].Requested? && log[|log| - 1].call != ListCall then 1 else 0
  }

  lemma {:induction false} CountsOfAppend(log: seq<Event>, more: seq<Event>)
    ensures ListRequests(log + more) == ListRequests(log) + ListRequests(more)
    ensures StoreWrites(log + more) == StoreWrites(log) + StoreWrites(more)
  {
    if more != [] {
      var init := more[..|more| - 1];
      assert (log + more)[..|log + more| - 1] == log + init;
      assert (log + more)[|log + more| - 1] == more[|more| - 1];
      CountsOfAppend(log, init);
    } else {
      assert log + more == log;
    }
  }

  lemma {:induction false} NoListRequests(log: seq<Event>)
    requires forall i :: 0 <= i < |log| ==> log[i] != Requested(ListCall)
    ensures ListRequests(log) == 0
  {
    if log != [] {
      NoListRequests(log[..|log| - 1]);
    }
  }

  /** The store call `handleSubmit` makes for the given editing buffer. */
  function SaveCall(editing: Option<Animal>, values: Fields): (c: Call)
    ensures c.CreateCall? <==> editing.None?
    ensures !c.ListCall? && c.values == values
    ensures editing.Some? ==> c == UpdateCall(editing.value.id, values)
  {
    match editing
    case Some(a) => UpdateCall(a.id, values)
    case None => CreateCall(values)
  }

  /** The success toast of a save, which fires only when it reports success. */
  function SavedToasts(editing: Option<Animal>, outcome: SaveOutcome): (t: seq<Event>)
    requires outcome.SaveResolved?
    ensures t != [] <==> outcome.success
    ensures outcome.success ==> t == [Toast(Success, if editing.Some? then Updated else Added)]
  {
    if outcome.success then [Toast(Success, if editing.Some? then Updated else Added)] else []
  }

  class AnimalTracker {
    var animals: seq<Animal>
    var loading: bool
    var modalVisible: bool
    var editing: Option<Animal>
    var form: Fields
    var events: seq<Event>
    /** List requests issued whose response has not been applied yet. */
    ghost var pendingLoads: nat
    /** The list responses applied so far, oldest first. */
    ghost var responses: seq<ListOutcome>

    /**
     * The collection is always the data of the last successful list
     * response, `loading` is only set while a list request is outstanding,
     * and every applied response answered a request.
     */
    ghost predicate Valid()
      reads this
    {
      && animals == LatestSnapshot(responses)
      && (loading ==> pendingLoads > 0)
      && ListRequests(events) == |responses| + pendingLoads
    }

    /** Mounting: the initial hook values, then the effect's `loadAnimals()` begins. */
    constructor ()
      ensures Valid()
      ensures animals == [] && loading && !modalVisible && editing == None && form == EmptyFields
      ensures events == [Requested(ListCall)] && pendingLoads == 1 && responses == []
    {
      animals := [];
      loading := false;
      modalVisible := false;
      editing := None;
      form := EmptyFields;
      events := [];
      pendingLoads := 0;
      responses := [];
      new;
      StartLoad();
    }

    /** Appends toasts and store writes, which leave the list-request count alone. */
    method EmitOthers(es: seq<Event>)
      requires forall i :: 0 <= i < |es| ==> es[i] != Requested(ListCall)
      modifies this`events
      ensures events == old(events) + es
      ensures ListRequests(events) == ListRequests(old(events))
    {
      NoListRequests(es);
      CountsOfAppend(events, es);
      events := events + es;
    }

    /** `loadAnimals` up to its `await`: loading is set and the list is requested. */
    method StartLoad()
      requires ListRequests(events) == |responses| + pendingLoads
      requires animals == LatestSnapshot(responses)
      modifies this
      ensures Valid()
      ensures loading && pendingLoads == old(pendingLoads) + 1
      ensures events == old(events) + [Requested(ListCall)]
      ensures animals == old(animals) && responses == old(responses)
      ensures modalVisible == old(modalVisible) && editing == old(editing) && form == old(form)
    {
      var request := [Requested(ListCall)];
      CountsOfAppend(events, request);
      assert request[..0] == [];
      events := events + request;
      loading := true;
      pendingLoads := pendingLoads + 1;
    }

    /**
     * `loadAnimals` after its `await`: a successful response replaces the
     * collection, an unsuccessful one is ignored, a rejection raises an error
     * toast; loading is cleared in every case.
     */
    method FinishLoad(outcome: ListOutcome)
      requires Valid() && pendingLoads > 0
      modifies this
      ensures Valid()
      ensures !loading && pendingLoads == old(pendingLoads) - 1
      ensures responses == old(responses) + [outcome]
      ensures animals == if Succeeded(outcome) then outcome.data else old(animals)
      ensures events == old(events) + if outcome.ListThrew? then [Toast(Error, LoadFailed)] else []
      ensures modalVisible == old(modalVisible) && editing == old(editing) && form == old(form)
    {
      if Succeeded(outcome) {
        animals := outcome.data;
      } else if outcome.ListThrew? {
        EmitOthers([Toast(Error, LoadFailed)]);
      }
      loading := false;
      pendingLoads := pendingLoads - 1;
      responses := responses + [outcome];
    }

    /** `await loadAnimals()` as one step: loading is true during the call. */
    method LoadAnimals(outcome: ListOutcome)
      requires Valid()
      modifies this
      ensures Valid()
      ensures !loading && pendingLoads == old(pendingLoads)
      ensures responses == old(responses) + [outcome]
      ensures animals == if Succeeded(outcome) then outcome.data else old(animals)
      ensures events == old(events) + [Requested(ListCall)] + if outcome.ListThrew? then [Toast(Error, LoadFailed)] else []
      ensures modalVisible == old(modalVisible) && editing == old(editing) && form == old(form)
    {
      StartLoad();
      assert loading;
      FinishLoad(outcome);
    }

    /** What `handleSubmit(values)` does with the store's answer `outcome`. */
    twostate predicate Submitted(values: Fields, outcome: SaveOutcome)
      reads this
    {
      var call := Requested(SaveCall(old(editing), values));
      && animals == old(animals) && responses == old(responses)
      && if outcome.SaveThrew? then
           && events == old(events) + [call, Toast(Error, SaveFailed)]
           && modalVisible == old(modalVisible) && editing == old(editing) && form == old(form)
           && loading == old(loading) && pendingLoads == old(pendingLoads)
         else
           && events == old(events) + [call] + SavedToasts(old(editing), outcome) + [Requested(ListCall)]
           && !modalVisible && editing == None && form == EmptyFields
           && loading && pendingLoads == old(pendingLoads) + 1
    }

    /**
     * `handleSubmit(values)`: update the edited record or create a new one;
     * any answer closes and resets the modal and issues a reload (not
     * awaited), a rejection leaves the modal as it was.
     */
    method HandleSubmit(values: Fields, outcome: SaveOutcome)
      requires Valid()
      modifies this
      ensures Valid()
      ensures Submitted(values, outcome)
    {
      var call := Requested(SaveCall(editing, values));
      if outcome.SaveThrew? {
        EmitOthers([call, Toast(Error, SaveFailed)]);
      } else {
        EmitOthers([call] + SavedToasts(editing, outcome));
        ResetAndReload();
      }
    }

    /** The tail of a resolved save: hide, reset, clear the buffer, reload. */
    method ResetAndReload()
      requires Valid()
      modifies this
      ensures Valid()
      ensures !modalVisible && form == EmptyFields && editing == None
      ensures loading && pendingLoads == old(pendingLoads) + 1
      ensures events == old(events) + [Requested(ListCall)]
      ensures animals == old(animals) && responses == old(responses)
    {
      modalVisible := false;
      form := EmptyFields;
      editing := None;
      StartLoad();
    }

    /**
     * Pressing the submit button: the form's required rules block an empty
     * name or species before `handleSubmit` runs.
     */
    method Submit(outcome: SaveOutcome)
      requires Valid()
      modifies this
      ensures Valid()
      ensures RequiredFilled(old(form)) ==> Submitted(old(form), outcome)
      ensures !RequiredFilled(old(form)) ==>
        && events == old(events) && animals == old(animals) && loading == old(loading)
        && modalVisible == old(modalVisible) && editing == old(editing) && form == old(form)
        && pendingLoads == old(pendingLoads) && responses == old(responses)
    {
      if RequiredFilled(form) {
        HandleSubmit(form, outcome);
      }
    }

    /** `handleEdit(record)`: buffer the record, merge it into the form, open the modal. */
    method HandleEdit(record: Animal)
      requires Valid()
      modifies this
      ensures Valid()
      ensures editing == Some(record) && modalVisible
      ensures form == SetFieldsValue(old(form), record)
      ensures old(form) == EmptyFields ==> form == FieldsOf(record)
      ensures events == old(events) && animals == old(animals) && loading == old(loading)
      ensures pendingLoads == old(pendingLoads) && responses == old(responses)
    {
      editing := Some(record);
      form := SetFieldsValue(form, record);
      modalVisible := true;
    }

    /**
     * `handleDelete(id)` with the user's answer to the confirmation: on OK a
     * success toast and a reload, and no store call that changes anything.
     * The id is not used, as in the source.
     */
    method HandleDelete(id: Option<string>, confirmed: bool)
      requires Valid()
      modifies this
      ensures Valid()
      ensures !confirmed ==> events == old(events) && loading == old(loading) && pendingLoads == old(pendingLoads)
      ensures confirmed ==>
        && events == old(events) + [Toast(Success, Deleted), Requested(ListCall)]
        && loading && pendingLoads == old(pendingLoads) + 1
      ensures StoreWrites(events) == StoreWrites(old(events))
      ensures animals == old(animals) && responses == old(responses)
      ensures modalVisible == old(modalVisible) && editing == old(editing) && form == old(form)
    {
      if confirmed {
        EmitOthers([Toast(Success, Deleted)]);
        StartLoad();
        CountsOfAppend(old(events), [Toast(Success, Deleted), Requested(ListCall)]);
      }
    }

    /** The "Add New Animal" button: empty buffer, empty form, modal open. */
    method OpenAdd()
      requires Valid()
      modifies this
      ensures Valid()
      ensures editing == None && form == EmptyFields && modalVisible
      ensures events == old(events) && animals == old(animals) && loading == old(loading)
      ensures pendingLoads == old(pendingLoads) && responses == old(responses)
    {
      editing := None;
      form := EmptyFields;
      modalVisible := true;
    }

    /** The modal's own close handler: hide, reset the form, clear the buffer. */
    method CloseModal()
      requires Valid()
      modifies this
      ensures Valid()
      ensures !modalVisible && form == EmptyFields && editing == None
      ensures events == old(events) && animals == old(animals) && loading == old(loading)
      ensures pendingLoads == old(pendingLoads) && responses == old(responses)
    {
      modalVisible := false;
      form := EmptyFields;
      editing := None;
    }

    /** The footer's Cancel button: only hides the modal. */
    method CancelFooter()
      requires Valid()
      modifies this
      ensures Valid()
      ensures !modalVisible
      ensures form == old(form) && editing == old(editing)
      ensures events == old(events) && animals == old(animals) && loading == old(loading)
      ensures pendingLoads == old(pendingLoads) && responses == old(responses)
    {
      modalVisible := false;
    }

    /** The modal's title, which follows the buffer, not how the modal was opened. */
    function Title(): (t: string)
      reads this
      ensures t == "Edit Animal" <==> editing.Some?
      ensures t == "Add New Animal" <==> editing.None?
    {
      if editing.Some? then "Edit Animal" else "Add New Animal"
    }

    /** The submit button's text. */
    function SubmitText(): (t: string)
      reads this
      ensures t == "Update Animal" <==> editing.Some?
      ensures t == "Add Animal" <==> editing.None?
    {
      if editing.Some? then "Update Animal" else "Add Animal"
    }
  }
}
