/**
 * The second-generation modal service: open dialogs are registered by id
 * and kept on a stack, so that "close the top one" and "close all" work.
 * Mounting the component in the page is left out; `elementFound` says
 * whether the mounted component contains an element with the dialog's id.
 */
module ModalStack {
  import opened JsArray

  /** The registered ids (`modals`) and the opening order (`modalStack`). */
  datatype Modals = Modals(registered: set<string>, stack: seq<string>)

  const NoModals := Modals({}, [])

  predicate Distinct(s: seq<string>) {
    forall a, b :: 0 <= a < b < |s| ==> s[a] != s[b]
  }

  /** The service's invariant: each registered id is on the stack exactly once, and the empty id never is. */
  ghost predicate Wf(m: Modals) {
    && Distinct(m.stack)
    && (forall id :: id in m.registered <==> id in m.stack)
    && "" !in m.registered
  }

  function IsId(id: string): string -> bool {
    (x: string) => x == id
  }

  /** Removing the element at `i` from a sequence without duplicates. */
  lemma RemoveAtKeepsDistinct(s: seq<string>, i: nat)
    requires Distinct(s) && i < |s|
    ensures Distinct(s[..i] + s[i + 1..])
    ensures forall x :: x in s[..i] + s[i + 1..] <==> x in s && x != s[i]
  {
    var r := s[..i] + s[i + 1..];
    assert forall k :: 0 <= k < |r| ==> r[k] == (if k < i then s[k] else s[k + 1]);
    assert s == s[..i] + [s[i]] + s[i + 1..];
    forall x | x in s && x != s[i] ensures x in r {
      var k :| 0 <= k < |s| && s[k] == x;
      assert r[if k < i then k else k - 1] == x;
    }
  }

  datatype OpenOutcome = AlreadyOpen | Opened | Threw

  /** `open`: an id already registered is refused; otherwise the dialog is shown, registered and pushed. */
  function Open(m: Modals, id: string, elementFound: bool): (r: (Modals, OpenOutcome))
    ensures id in m.registered ==> r == (m, AlreadyOpen)
    ensures r.1 == Opened <==> id !in m.registered && id != "" && elementFound
    ensures r.1 != Opened ==> r.0 == m
    ensures r.1 == Opened ==> r.0.registered == m.registered + {id} && r.0.stack == m.stack + [id]
  {
    if id in m.registered then (m, AlreadyOpen)
    // `querySelector('#')` rejects the empty selector, and a missing element has no `style`.
    // Other ids that are not CSS identifiers ("1a", "a b") would throw as well; the app only passes fixed, valid ids.
    else if id == "" || !elementFound then (m, Threw)
    else (Modals(m.registered + {id}, m.stack + [id]), Opened)
  }

  /** `close`: an unknown id is ignored; otherwise it is unregistered and its first stack entry spliced out. */
  function Close(m: Modals, id: string): (r: Modals)
    ensures id !in m.registered ==> r == m
    ensures id in m.registered ==> r.registered == m.registered - {id}
    ensures |r.stack| <= |m.stack|
    ensures forall x :: x != id ==> (x in r.stack <==> x in m.stack)
    ensures Distinct(m.stack) && id in m.registered ==> id !in r.stack && Distinct(r.stack)
    // only the first stack entry with the id goes; the others keep their order
    ensures id in m.registered && id in m.stack ==>
              exists i :: 0 <= i < |m.stack| && m.stack[i] == id && id !in m.stack[..i]
                          && r.stack == m.stack[..i] + m.stack[i + 1..]
    ensures id in m.registered && id !in m.stack ==> r.stack == m.stack
  {
    if id !in m.registered then m
    else
      var registered := m.registered - {id};
      var index := FindIndex(m.stack, IsId(id));
      if index <= -1 then
        Modals(registered, m.stack)
      else
        RemoveAtKeepsDistinctIfDistinct(m.stack, index);
        assert id !in m.stack[..index] by {
          assert forall k :: 0 <= k < index ==> m.stack[..index][k] == m.stack[k];
        }
        Modals(registered, m.stack[..index] + m.stack[index + 1..])
  }

  /** What `close` relies on after `indexOf`: the spliced stack keeps every other id, and no duplicates if it had none. */
  lemma RemoveAtKeepsDistinctIfDistinct(s: seq<string>, i: nat)
    requires i < |s|
    ensures forall x :: x != s[i] ==> (x in s[..i] + s[i + 1..] <==> x in s)
    ensures Distinct(s) ==> Distinct(s[..i] + s[i + 1..]) && s[i] !in s[..i] + s[i + 1..]
  {
    var r := s[..i] + s[i + 1..];
    assert s == s[..i] + [s[i]] + s[i + 1..];
    assert forall k :: 0 <= k < |r| ==> r[k] == (if k < i then s[k] else s[k + 1]);
    if Distinct(s) {
      RemoveAtKeepsDistinct(s, i);
    }
  }

  /** `closeLast`: pop the top id and close it (an empty id is only popped). */
  function CloseLast(m: Modals): (r: Modals)
    ensures |m.stack| == 0 ==> r == m
    ensures |m.stack| > 0 ==> |r.stack| < |m.stack|
    ensures r.registered <= m.registered
    ensures Wf(m) && |m.stack| > 0 ==>
              r.stack == m.stack[..|m.stack| - 1] && r.registered == m.registered - {m.stack[|m.stack| - 1]}
  {
    if |m.stack| == 0 then m
    else
      var last := m.stack[|m.stack| - 1];
      var popped := m.(stack := m.stack[..|m.stack| - 1]);
      assert Distinct(m.stack) ==> last !in popped.stack;
      if last != "" then Close(popped, last) else popped
  }

  /** Opening keeps the invariant. */
  lemma OpenKeepsWf(m: Modals, id: string, elementFound: bool)
    requires Wf(m)
    ensures Wf(Open(m, id, elementFound).0)
  {
    var o := Open(m, id, elementFound).0;
    if o != m {
      assert o.stack == m.stack + [id];
      assert id !in m.stack;
      assert Distinct(o.stack);
    }
  }

  /** Closing by id keeps the invariant. */
  lemma CloseKeepsWf(m: Modals, id: string)
    requires Wf(m)
    ensures Wf(Close(m, id))
  {
  }

  /** Closing the top dialog keeps the invariant. */
  lemma CloseLastKeepsWf(m: Modals)
    requires Wf(m)
    ensures Wf(CloseLast(m))
  {
    if |m.stack| > 0 {
      var last := m.stack[|m.stack| - 1];
      assert CloseLast(m) == Modals(m.registered - {last}, m.stack[..|m.stack| - 1]);
      PopKeepsWf(m);
    }
  }

  /** Dropping the top id from both the stack and the registry keeps the invariant. */
  lemma PopKeepsWf(m: Modals)
    requires Wf(m) && |m.stack| > 0
    ensures Wf(Modals(m.registered - {m.stack[|m.stack| - 1]}, m.stack[..|m.stack| - 1]))
  {
    var last := m.stack[|m.stack| - 1];
    var popped := m.stack[..|m.stack| - 1];
    assert forall k :: 0 <= k < |popped| ==> popped[k] == m.stack[k];
    assert m.stack == popped + [last];
    assert last !in popped;
  }

  /** Opening a new dialog and closing it (by id, or as the top one) restores the service state. */
  lemma OpenThenClose(m: Modals, id: string)
    requires Wf(m) && id !in m.registered && id != ""
    ensures Close(Open(m, id, true).0, id) == m
    ensures CloseLast(Open(m, id, true).0) == m
  {
    var o := Open(m, id, true).0;
    assert id !in m.stack;
    assert FindIndex(o.stack, IsId(id)) == |m.stack| by {
      assert IsId(id)(o.stack[|m.stack|]);
      assert forall k :: 0 <= k < |m.stack| ==> o.stack[k] == m.stack[k];
    }
    assert o.stack[..|m.stack|] == m.stack;
    assert o.registered - {id} == m.registered;
  }

  /** `closeAll`: close the top dialog until the stack is empty. */
  method CloseAll(m: Modals) returns (r: Modals)
    ensures |r.stack| == 0
    ensures r.registered <= m.registered
    ensures Wf(m) ==> r == NoModals
  {
    r := m;
    while |r.stack| > 0
      invariant r.registered <= m.registered
      invariant Wf(m) ==> Wf(r)
      decreases |r.stack|
    {
      if Wf(m) {
        CloseLastKeepsWf(r);
      }
      r := CloseLast(r);
    }
    assert Wf(m) ==> r.registered == {};
  }
}
