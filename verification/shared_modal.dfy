/**
 * The shared modal service: a plain id registry where a duplicate
 * registration is an error, and open/close act on the first dialog with
 * the id, if any. Whether a dialog shows is kept as the set `shown`.
 */
module SharedModal {
  import opened JsArray

  datatype Registry = Registry(ids: seq<string>, shown: set<string>)

  datatype AddOutcome = Added(registry: Registry) | Threw(message: string)

  function IsId(id: string): string -> bool {
    (x: string) => x == id
  }

  function IsNotId(id: string): string -> bool {
    (x: string) => x != id
  }

  predicate UniqueIds(r: Registry) {
    forall a, b :: 0 <= a < b < |r.ids| ==> r.ids[a] != r.ids[b]
  }

  /** `add`: a known id throws; otherwise it is appended. */
  function Add(r: Registry, id: string): (o: AddOutcome)
    ensures o.Added? <==> id !in r.ids
    ensures o.Threw? ==> o.message == "A modal with id " + id + " already exists"
    ensures o.Added? ==> o.registry.ids == r.ids + [id] && o.registry.shown == r.shown
    ensures o.Added? && UniqueIds(r) ==> UniqueIds(o.registry)
  {
    var idx := FindIndex(r.ids, IsId(id));
    if idx != -1 then
      assert IsId(id)(r.ids[idx]);
      Threw("A modal with id " + id + " already exists")
    else
      assert forall k :: 0 <= k < |r.ids| ==> !IsId(id)(r.ids[k]);
      Added(r.(ids := r.ids + [id]))
  }

  /** `remove`: drop the id, keeping the others in order. */
  function Remove(r: Registry, id: string): (o: Registry)
    ensures id !in o.ids
    ensures forall x :: x != id ==> (x in o.ids <==> x in r.ids)
    ensures o.ids == Filter(r.ids, IsNotId(id)) && o.shown == r.shown
  {
    var kept := Filter(r.ids, IsNotId(id));
    assert forall k :: 0 <= k < |kept| ==> IsNotId(id)(kept[k]);
    forall x | x != id && x in r.ids ensures x in kept {
      var k :| 0 <= k < |r.ids| && r.ids[k] == x;
      assert IsNotId(id)(r.ids[k]);
    }
    r.(ids := kept)
  }

  /** Adding a fresh id and removing it restores the registry. */
  lemma AddThenRemove(r: Registry, id: string)
    requires id !in r.ids
    ensures Add(r, id).Added? && Remove(Add(r, id).registry, id) == r
  {
    FilterAppend(r.ids, [id], IsNotId(id));
    FilterKeepsAll(r.ids, IsNotId(id));
    assert Filter([id], IsNotId(id)) == Filter([id][1..], IsNotId(id));
  }

  /** `open`: shows a registered dialog (`modal?.open()`). */
  function Open(r: Registry, id: string): (o: Registry)
    ensures o.ids == r.ids
    ensures id in r.ids ==> o.shown == r.shown + {id}
    ensures id !in r.ids ==> o == r
  {
    if Find(r.ids, IsId(id)).Some? then r.(shown := r.shown + {id})
    else
      assert forall k :: 0 <= k < |r.ids| ==> !IsId(id)(r.ids[k]);
      r
  }

  /** `close`: hides a registered dialog (`modal?.close()`). */
  function Close(r: Registry, id: string): (o: Registry)
    ensures o.ids == r.ids
    ensures id in r.ids ==> o.shown == r.shown - {id}
    ensures id !in r.ids ==> o == r
  {
    if Find(r.ids, IsId(id)).Some? then r.(shown := r.shown - {id})
    else
      assert forall k :: 0 <= k < |r.ids| ==> !IsId(id)(r.ids[k]);
      r
  }

  /** Opening then closing a hidden registered dialog leaves it hidden again. */
  lemma OpenThenClose(r: Registry, id: string)
    requires id in r.ids && id !in r.shown
    ensures Close(Open(r, id), id) == r
  {
  }
}
