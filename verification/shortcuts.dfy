/**
 * Global keyboard shortcuts: a key press runs every shortcut whose key
 * matches case-insensitively and whose modifier list is exactly the set
 * of modifiers held down.
 */
module Shortcuts {
  import opened JsText

  /** The fields of a `KeyboardEvent` the service reads. */
  datatype KeyEvent = KeyEvent(key: string, altKey: bool, ctrlKey: bool, shiftKey: bool, metaKey: bool)

  datatype Action = ExitApp | PreventReload | SaveGame

  datatype Shortcut = Shortcut(key: string, modifiers: seq<string>, action: Action)

  /** The configured shortcuts, in declaration order: Alt+F4, F5, Ctrl+S. */
  const Configured: seq<Shortcut> := [
    Shortcut("F4", ["Alt"], ExitApp),
    Shortcut("F5", [], PreventReload),
    Shortcut("S", ["Ctrl"], SaveGame)]

  const ModifierNames: set<string> := {"Alt", "Ctrl", "Shift", "Meta"}

  /** `modifiersMap[mod]`: the flag of a known modifier; any other name reads `undefined`, which is falsy. */
  function ModifierPressed(e: KeyEvent, name: string): bool {
    if name == "Alt" then e.altKey
    else if name == "Ctrl" then e.ctrlKey
    else if name == "Shift" then e.shiftKey
    else if name == "Meta" then e.metaKey
    else false
  }

  /** The names of the modifiers held down. */
  function Pressed(e: KeyEvent): (s: set<string>)
    ensures s <= ModifierNames
    ensures forall name :: name in s <==> name in ModifierNames && ModifierPressed(e, name)
  {
    (if e.altKey then {"Alt"} else {}) + (if e.ctrlKey then {"Ctrl"} else {})
    + (if e.shiftKey then {"Shift"} else {}) + (if e.metaKey then {"Meta"} else {})
  }

  /** `requiredModifiers.every(mod => modifiersMap[mod])`. */
  function AllPressed(e: KeyEvent, required: seq<string>): (ok: bool)
    ensures ok <==> forall k :: 0 <= k < |required| ==> ModifierPressed(e, required[k])
  {
    if |required| == 0 then true
    else ModifierPressed(e, required[0]) && AllPressed(e, required[1..])
  }

  /** The set of listed names holds exactly the names in the list. */
  lemma KnownNamesAsSet(required: seq<string>)
    ensures forall name :: name in (set k | 0 <= k < |required| :: required[k]) <==> name in required
  {
    forall name | name in required ensures name in (set k | 0 <= k < |required| :: required[k]) {
      var k :| 0 <= k < |required| && required[k] == name;
    }
  }

  /** `checkModifiers`: every required modifier is down and every other modifier is up. */
  function CheckModifiers(e: KeyEvent, required: seq<string>): (ok: bool)
    ensures ok <==> (forall k :: 0 <= k < |required| ==> ModifierPressed(e, required[k]))
                    && (forall name :: name in ModifierNames && name !in required ==> !ModifierPressed(e, name))
    ensures |required| == 0 ==> (ok <==> Pressed(e) == {})
    ensures (forall k :: 0 <= k < |required| ==> required[k] in ModifierNames) ==>
              (ok <==> Pressed(e) == set k | 0 <= k < |required| :: required[k])
  {
    var others := (("Alt" in required) || !e.altKey) && (("Ctrl" in required) || !e.ctrlKey)
                  && (("Shift" in required) || !e.shiftKey) && (("Meta" in required) || !e.metaKey);
    var ok := AllPressed(e, required) && others;
    assert others <==> forall name :: name in ModifierNames && name !in required ==> !ModifierPressed(e, name);
    KnownNamesAsSet(required);
    ok
  }

  /** Whether a shortcut fires for a key press. */
  predicate Fires(e: KeyEvent, s: Shortcut) {
    UpperStr(e.key) == UpperStr(s.key) && CheckModifiers(e, s.modifiers)
  }

  /** What `handleKeyDown` does for one press: whether it prevents the default, and the actions it runs, in order. */
  datatype KeyOutcome = KeyOutcome(preventDefault: bool, actions: seq<Action>)

  /** The loop of `handleKeyDown` over the shortcuts. */
  function RunMatching(e: KeyEvent, shortcuts: seq<Shortcut>): (r: seq<Action>)
    ensures |r| <= |shortcuts|
    ensures forall a :: a in r ==> exists k :: 0 <= k < |shortcuts| && shortcuts[k].action == a && Fires(e, shortcuts[k])
    ensures forall k :: 0 <= k < |shortcuts| && Fires(e, shortcuts[k]) ==> shortcuts[k].action in r
  {
    if |shortcuts| == 0 then []
    else
      var rest := RunMatching(e, shortcuts[1..]);
      assert forall a :: a in rest ==> exists k :: 0 <= k < |shortcuts| && shortcuts[k].action == a && Fires(e, shortcuts[k]) by {
        forall a | a in rest ensures exists k :: 0 <= k < |shortcuts| && shortcuts[k].action == a && Fires(e, shortcuts[k]) {
          var j :| 0 <= j < |shortcuts[1..]| && shortcuts[1..][j].action == a && Fires(e, shortcuts[1..][j]);
          assert shortcuts[j + 1] == shortcuts[1..][j];
        }
      }
      assert forall k :: 1 <= k < |shortcuts| ==> shortcuts[k] == shortcuts[1..][k - 1];
      if Fires(e, shortcuts[0]) then [shortcuts[0].action] + rest else rest
  }

  /** The loop over the three configured shortcuts, written out. */
  lemma RunConfigured(e: KeyEvent)
    ensures RunMatching(e, Configured) ==
              (if Fires(e, Configured[0]) then [ExitApp] else [])
              + (if Fires(e, Configured[1]) then [PreventReload] else [])
              + (if Fires(e, Configured[2]) then [SaveGame] else [])
  {
    var tail1 := Configured[1..];
    var tail2 := tail1[1..];
    assert tail1 == [Configured[1], Configured[2]];
    assert tail2 == [Configured[2]];
    assert RunMatching(e, tail2) == (if Fires(e, Configured[2]) then [SaveGame] else []) + RunMatching(e, tail2[1..]);
    assert RunMatching(e, tail1) == (if Fires(e, Configured[1]) then [PreventReload] else []) + RunMatching(e, tail2);
    assert RunMatching(e, Configured) == (if Fires(e, Configured[0]) then [ExitApp] else []) + RunMatching(e, tail1);
  }

  /** `handleKeyDown`: the default is prevented exactly when some shortcut fires. */
  function HandleKeyDown(e: KeyEvent): (r: KeyOutcome)
    ensures r.preventDefault <==> |r.actions| > 0
    ensures r.preventDefault <==> exists k :: 0 <= k < |Configured| && Fires(e, Configured[k])
    ensures forall a :: a in r.actions <==> exists k :: 0 <= k < |Configured| && Configured[k].action == a && Fires(e, Configured[k])
  {
    var actions := RunMatching(e, Configured);
    assert |actions| > 0 ==> actions[0] in actions;
    KeyOutcome(|actions| > 0, actions)
  }

  /** The configured keys differ even ignoring case, so one press runs at most one action. */
  lemma AtMostOneAction(e: KeyEvent)
    ensures |HandleKeyDown(e).actions| <= 1
  {
    RunConfigured(e);
    assert UpperStr("F4") == "F4" && UpperStr("F5") == "F5" && UpperStr("S") == "S";
    assert UpperStr("F4") != UpperStr("F5") && UpperStr("F4") != UpperStr("S") && UpperStr("F5") != UpperStr("S");
  }

  /** Alt+F4 exits. */
  lemma AltF4Exits()
    ensures HandleKeyDown(KeyEvent("F4", true, false, false, false)) == KeyOutcome(true, [ExitApp])
  {
    var e := KeyEvent("F4", true, false, false, false);
    RunConfigured(e);
    assert UpperStr("F4") == "F4" && UpperStr("F5") == "F5" && UpperStr("S") == "S";
    assert Fires(e, Configured[0]);
  }

  /** A bare F5 is swallowed by the no-op action, so the page never reloads. */
  lemma F5IsSwallowed()
    ensures HandleKeyDown(KeyEvent("F5", false, false, false, false)) == KeyOutcome(true, [PreventReload])
  {
    var e := KeyEvent("F5", false, false, false, false);
    RunConfigured(e);
    assert UpperStr("F4") == "F4" && UpperStr("F5") == "F5" && UpperStr("S") == "S";
    assert Fires(e, Configured[1]);
  }

  /** Ctrl+S saves whether the key reads "s" or "S". */
  lemma CtrlSSaves()
    ensures HandleKeyDown(KeyEvent("s", false, true, false, false)) == KeyOutcome(true, [SaveGame])
  {
    var e := KeyEvent("s", false, true, false, false);
    RunConfigured(e);
    assert UpperStr("F4") == "F4" && UpperStr("F5") == "F5" && UpperStr("s") == "S";
    assert Fires(e, Configured[2]);
  }

  /** With Shift also held, Ctrl+S does nothing: the modifiers must match exactly. */
  lemma CtrlShiftSIgnored()
    ensures HandleKeyDown(KeyEvent("S", false, true, true, false)) == KeyOutcome(false, [])
  {
    var e := KeyEvent("S", false, true, true, false);
    RunConfigured(e);
    assert UpperStr("F4") == "F4" && UpperStr("F5") == "F5" && UpperStr("S") == "S";
    assert !CheckModifiers(e, ["Ctrl"]);
  }
}
