/**
 * The first-generation modal service: dialogs register themselves by id,
 * and the service keeps the list of dialogs opened through it. Whether a
 * dialog component is showing is kept as the set `shown`; the components'
 * own `open` and `close` are not part of this model.
 */
module ModalRegistry {
  import opened Wrappers
  import opened JsArray

  /** A registered dialog: its id and whether a second registration is tolerated (`isUnique()`). */
  datatype ModalRef = ModalRef(id: string, unique: bool)

  datatype Registry = Registry(modals: seq<ModalRef>, openModals: seq<ModalRef>, shown: set<string>)

  /** What `add` does: register, return quietly, or throw. */
  datatype AddOutcome = Added(registry: Registry) | Ignored | Threw(message: string)

  function HasId(id: string): ModalRef -> bool {
    (m: ModalRef) => m.id == id
  }

  function LacksId(id: string): ModalRef -> bool {
    (m: ModalRef) => m.id != id
  }

  predicate Registered(r: Registry, id: string) {
    exists k :: 0 <= k < |r.modals| && r.modals[k].id == id
  }

  /** No two registered dialogs share an id. */
  predicate UniqueIds(r: Registry) {
    forall a, b :: 0 <= a < b < |r.modals| ==> r.modals[a].id != r.modals[b].id
  }

  function DuplicateMessage(id: string): string {
    "A modal with id " + id + " already exists"
  }

  /** `add`: a second dialog with a known id is ignored when it is unique and rejected otherwise. */
  function Add(r: Registry, modal: ModalRef): (o: AddOutcome)
    ensures o.Added? <==> !Registered(r, modal.id)
    ensures o.Ignored? <==> Registered(r, modal.id) && modal.unique
    ensures o.Threw? ==> o.message == DuplicateMessage(modal.id)
    ensures o.Added? ==> o.registry == r.(modals := r.modals + [modal])
    ensures o.Added? && UniqueIds(r) ==> UniqueIds(o.registry)
  {
    var idx := FindIndex(r.modals, HasId(modal.id));
    if idx != -1 then
      assert HasId(modal.id)(r.modals[idx]);
      if modal.unique then Ignored else Threw(DuplicateMessage(modal.id))
    else
      assert forall k :: 0 <= k < |r.modals| ==> !HasId(modal.id)(r.modals[k]);
      Added(r.(modals := r.modals + [modal]))
  }

  /** `remove`: every dialog with the id is dropped; the others keep their order. */
  function Remove(r: Registry, id: string): (o: Registry)
    ensures !Registered(o, id)
    ensures o.modals == Filter(r.modals, LacksId(id))
    ensures o.openModals == r.openModals && o.shown == r.shown
    ensures forall k :: 0 <= k < |r.modals| && r.modals[k].id != id ==> r.modals[k] in o.modals
  {
    var kept := Filter(r.modals, LacksId(id));
    assert forall k :: 0 <= k < |kept| ==> LacksId(id)(kept[k]);
    r.(modals := kept)
  }

  /** Registering a dialog with a fresh id and removing it again restores the registry. */
  lemma AddThenRemove(r: Registry, modal: ModalRef)
    requires !Registered(r, modal.id)
    ensures Add(r, modal).Added?
    ensures Remove(Add(r, modal).registry, modal.id) == r
  {
    var id := modal.id;
    FilterAppend(r.modals, [modal], LacksId(id));
    FilterKeepsAll(r.modals, LacksId(id));
    assert Filter([modal], LacksId(id)) == Filter([modal][1..], LacksId(id));
  }

  /** `open`: a registered dialog is pushed on the open list and shown; an unknown id does nothing. */
  function Open(r: Registry, id: string): (o: Registry)
    ensures !Registered(r, id) ==> o == r
    ensures Registered(r, id) ==>
              && o.modals == r.modals
              && |o.openModals| == |r.openModals| + 1
              && o.openModals[..|r.openModals|] == r.openModals
              && o.openModals[|r.openModals|].id == id
              && o.shown == r.shown + {id}
  {
    var found := Find(r.modals, HasId(id));
    if found.Some? then
      assert HasId(id)(found.value);
      r.(openModals := r.openModals + [found.value], shown := r.shown + {id})
    else
      assert forall k :: 0 <= k < |r.modals| ==> !HasId(id)(r.modals[k]);
      r
  }

  /** `close`: a registered dialog is hidden; the open list is left as it is. */
  function Close(r: Registry, id: string): (o: Registry)
    ensures !Registered(r, id) ==> o == r
    ensures Registered(r, id) ==> o == r.(shown := r.shown - {id})
    ensures o.openModals == r.openModals
  {
    var found := Find(r.modals, HasId(id));
    if found.Some? then
      assert HasId(id)(found.value);
      r.(shown := r.shown - {id})
    else
      assert forall k :: 0 <= k < |r.modals| ==> !HasId(id)(r.modals[k]);
      r
  }

  /** `getLastOpenModal`: the most recently opened dialog, `undefined` when none. */
  function GetLastOpenModal(r: Registry): (m: Option<ModalRef>)
    ensures m.None? <==> |r.openModals| == 0
    ensures m.Some? ==> m.value == r.openModals[|r.openModals| - 1]
  {
    if |r.openModals| == 0 then None else Some(r.openModals[|r.openModals| - 1])
  }

  /** `removeLastOpenModal`: `pop`, which does nothing on an empty list. */
  function RemoveLastOpenModal(r: Registry): (o: Registry)
    ensures |r.openModals| == 0 ==> o == r
    ensures |r.openModals| > 0 ==> o == r.(openModals := r.openModals[..|r.openModals| - 1])
  {
    if |r.openModals| == 0 then r else r.(openModals := r.openModals[..|r.openModals| - 1])
  }

  /** Opening a registered dialog makes it the last open one, and popping it restores the open list. */
  lemma OpenThenPop(r: Registry, id: string)
    requires Registered(r, id)
    ensures GetLastOpenModal(Open(r, id)).Some?
    ensures GetLastOpenModal(Open(r, id)).value.id == id
    ensures RemoveLastOpenModal(Open(r, id)).openModals == r.openModals
  {
  }

  /** Closing does not pop: a dialog opened and then closed is still reported as the last open one. */
  lemma CloseLeavesOpenList(r: Registry, id: string)
    requires Registered(r, id)
    ensures var o := Close(Open(r, id), id);
            id !in o.shown && GetLastOpenModal(o).Some? && GetLastOpenModal(o).value.id == id
  {
  }
}
