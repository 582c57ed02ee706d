/**
 * The digimon status card: the floating badge it shows when the game
 * state reports a HP change for its digimon, and the hover state that
 * decides whether the delete button is offered.
 */
module StatusCard {
  import opened Wrappers
  import opened JsText
  import opened Roster

  /** The object the global state emits on `digimonHpChanges$`. */
  datatype HpChange = HpChange(digimonId: Option<string>, previousHp: int, currentHp: int,
                               difference: int, isPositive: bool)

  /** `handleHpChange`: the event emitted when a digimon's HP is set to `newHp`. */
  function HandleHpChange(d: Digimon, newHp: int): (e: HpChange)
    ensures e.digimonId == d.id && e.previousHp == d.currentHp && e.currentHp == newHp
    ensures e.difference >= 0
    ensures e.previousHp + e.difference == newHp || e.previousHp - e.difference == newHp
    ensures e.isPositive <==> newHp > d.currentHp
  {
    var delta := d.currentHp - newHp;
    HpChange(d.id, d.currentHp, newHp, if delta < 0 then -delta else delta, d.currentHp < newHp)
  }

  datatype BadgeType = Healing | Damage | Miss | NoBadge

  /** What the card does with one event: show a badge (and maybe play the hit animation) or nothing. */
  datatype Reaction = Ignored | Badge(text: string, kind: BadgeType, hit: bool)

  /** The HP-change subscription of the card showing `shown`. */
  function OnHpChange(shown: Digimon, e: HpChange): (r: Reaction)
    ensures e.digimonId != shown.id ==> r == Ignored
    ensures e.digimonId == shown.id && e.difference == 0 ==> r == Badge("Miss", Miss, false)
    ensures e.digimonId == shown.id && e.difference < 0 ==> r == Ignored
    ensures r.Badge? && r.kind == Healing ==> e.isPositive && e.difference > 0 && !r.hit
    ensures r.Badge? && r.kind == Damage ==> !e.isPositive && e.difference > 0 && r.hit
    ensures e.digimonId == shown.id && e.difference > 0 ==>
              r.Badge? && (r.kind == Healing <==> e.isPositive) && (r.kind == Damage <==> !e.isPositive)
    ensures r.Badge? && e.difference > 0 ==>
              r.text == (if e.isPositive then "+ " else "- ") + NatToString(e.difference) + " HP"
  {
    if e.digimonId != shown.id then Ignored
    else if e.difference == 0 then Badge("Miss", Miss, false)
    else if e.isPositive && e.difference > 0 then Badge("+ " + NatToString(e.difference) + " HP", Healing, false)
    else if !e.isPositive && e.difference > 0 then Badge("- " + NatToString(e.difference) + " HP", Damage, true)
    else Ignored
  }

  /**
   * The digimon proxy's `set` trap for `currentHp`: the HP is stored, and a
   * change event is emitted only when the value differs from the stored one.
   */
  function SetHp(d: Digimon, newHp: int): (r: (Digimon, Option<HpChange>))
    ensures r.0 == d.(currentHp := newHp)
    ensures r.1.None? <==> newHp == d.currentHp
    ensures r.1.Some? ==> r.1.value.difference > 0 && r.1.value.digimonId == d.id
  {
    (d.(currentHp := newHp), if newHp != d.currentHp then Some(HandleHpChange(d, newHp)) else None)
  }

  /**
   * The card of the digimon whose HP is set: no event when the value is
   * unchanged; otherwise healing exactly when HP rose and damage (with the hit
   * animation) exactly when it fell. The Miss badge is never reached this way.
   */
  lemma BadgeMatchesHpChange(d: Digimon, newHp: int)
    ensures var (_, e) := SetHp(d, newHp);
            && (e.None? <==> newHp == d.currentHp)
            && (e.Some? ==>
                  var r := OnHpChange(d, e.value);
                  && r.Badge?
                  && r.kind != Miss
                  && (r.kind == Healing <==> newHp > d.currentHp)
                  && (r.kind == Damage <==> newHp < d.currentHp)
                  && (r.hit <==> newHp < d.currentHp))
  {
  }

  /** Cards of other digimon ignore the event. */
  lemma OtherCardsIgnore(shown: Digimon, d: Digimon, newHp: int)
    requires shown.id != d.id
    ensures OnHpChange(shown, HandleHpChange(d, newHp)) == Ignored
  {
  }

  /** The hover state of a card. */
  datatype Hover = Hover(isHovered: bool, isDeletable: bool)

  /** `some(d => d.id === shown.id)`: two missing ids compare equal, as `undefined === undefined` does. */
  predicate HasSameId(all: seq<Digimon>, shown: Digimon) {
    exists k :: 0 <= k < |all| && all[k].id == shown.id
  }

  /** `onMouseEnter`: deletable when the digimon is the player's, the player has more than one, and no battle runs. */
  function OnMouseEnter(all: seq<Digimon>, shown: Digimon, isBattleActive: bool): (h: Hover)
    ensures h.isHovered
    ensures h.isDeletable <==> HasSameId(all, shown) && |all| > 1 && !isBattleActive
  {
    Hover(true, HasSameId(all, shown) && |all| > 1 && !isBattleActive)
  }

  /** `mouseleave`: both flags drop. */
  function OnMouseLeave(h: Hover): (r: Hover)
    ensures !r.isHovered && !r.isDeletable
  {
    Hover(false, false)
  }

  /** The last digimon a player owns is never offered for deletion, and neither is any digimon during a battle. */
  lemma NeverDeleteLastOrInBattle(all: seq<Digimon>, shown: Digimon, isBattleActive: bool)
    requires |all| <= 1 || isBattleActive
    ensures !OnMouseEnter(all, shown, isBattleActive).isDeletable
  {
  }
}
