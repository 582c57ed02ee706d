/**
 * The battle turn queue of the global state: the base order is repeated
 * five times into the working queue, and each turn first decides whether
 * the battle is over before handing the turn to the digimon at the front.
 */
module BattleTurns {
  import opened Wrappers
  import opened Roster

  /** A digimon in the turn order, tagged with its side (`'player'` or `'enemy'`). */
  datatype Combatant = Combatant(digimon: Digimon, owner: string)

  /** How many copies of the base order a refill appends. */
  const RefillCopies := 5

  /** The queue is refilled when it holds at most this many entries. */
  const RefillThreshold := 5

  /** `n` copies of `base`, one after the other. */
  function Repeat(base: seq<Combatant>, n: nat): (r: seq<Combatant>)
    ensures |r| == n * |base|
  {
    if n == 0 then [] else Repeat(base, n - 1) + base
  }

  /** `repopulateTurnOrder`: the queue followed by five copies of the base order (`RepeatFive` spells them out). */
  method RepopulateTurnOrder(actual: seq<Combatant>, base: seq<Combatant>) returns (r: seq<Combatant>)
    ensures r == actual + Repeat(base, RefillCopies)
  {
    r := actual;
    var i := 0;
    while i < RefillCopies
      invariant 0 <= i <= RefillCopies
      invariant r == actual + Repeat(base, i)
    {
      r := r + base;
      i := i + 1;
    }
  }

  /** `every(d => d.currentHp <= 0)`; true of an empty list. */
  predicate AllDown(list: seq<Digimon>) {
    forall k :: 0 <= k < |list| ==> list[k].currentHp <= 0
  }

  datatype BattleEnd = Plain | Victory | Defeat

  /** What `nextTurn` does after its checks. */
  datatype TurnDecision =
    | Ended(how: BattleEnd)
    | PlayerToAct(attacker: Combatant)
    | EnemyToAct(attacker: Combatant)
    | NobodyActs

  datatype Battle = Battle(
    isBattleActive: bool,
    enemyTeam: seq<Digimon>,
    team: seq<Digimon>,
    baseTurnOrder: seq<Combatant>,
    actualTurnOrder: seq<Combatant>)

  /** The queue `nextTurn` reads its attacker from: refilled first when short. */
  function QueueForTurn(b: Battle): (q: seq<Combatant>)
    ensures |b.actualTurnOrder| > RefillThreshold ==> q == b.actualTurnOrder
    ensures |b.actualTurnOrder| <= RefillThreshold ==>
              && |q| == |b.actualTurnOrder| + RefillCopies * |b.baseTurnOrder|
              && q[..|b.actualTurnOrder|] == b.actualTurnOrder
              && q[|b.actualTurnOrder|..|b.actualTurnOrder| + |b.baseTurnOrder|] == b.baseTurnOrder
              && forall j :: |b.actualTurnOrder| + |b.baseTurnOrder| <= j < |q| ==> q[j] == q[j - |b.baseTurnOrder|]
  {
    var actual, base := b.actualTurnOrder, b.baseTurnOrder;
    if |actual| <= RefillThreshold then
      var r := Repeat(base, RefillCopies);
      var q := actual + r;
      assert r[..|base|] == base && forall j :: |base| <= j < |r| ==> r[j] == r[j - |base|] by {
        RepeatPeriodic(base, RefillCopies);
      }
      assert forall j :: |actual| <= j < |q| ==> q[j] == r[j - |actual|];
      q
    else actual
  }

  /** Repeats of `base` start with `base` and repeat with period `|base|`. */
  lemma {:induction false} RepeatPeriodic(base: seq<Combatant>, n: nat)
    requires n >= 1
    ensures Repeat(base, n)[..|base|] == base
    ensures forall j :: |base| <= j < |Repeat(base, n)| ==> Repeat(base, n)[j] == Repeat(base, n)[j - |base|]
  {
    var r := Repeat(base, n);
    if n == 1 {
      assert r == [] + base;
    } else {
      var p := Repeat(base, n - 1);
      RepeatPeriodic(base, n - 1);
      assert r == p + base;
      assert |p| == (n - 1) * |base| >= |base|;
      forall j | |base| <= j < |r| ensures r[j] == r[j - |base|] {
        if j < |p| {
          assert r[j] == p[j] && r[j - |base|] == p[j - |base|];
        } else {
          assert r[j] == base[j - |p|];
          assert p == Repeat(base, n - 2) + base by {
            if n == 2 { assert Repeat(base, 1) == [] + base; }
          }
          assert r[j - |base|] == base[j - |p|];
        }
      }
    }
  }

  /** Five repeats, spelled out. */
  lemma RepeatFive(base: seq<Combatant>)
    ensures Repeat(base, 5) == base + base + base + base + base
  {
    assert Repeat(base, 1) == base by {
      assert [] + base == base;
    }
    assert Repeat(base, 2) == base + base;
    assert Repeat(base, 3) == base + base + base;
    assert Repeat(base, 4) == base + base + base + base;
  }

  /** Who acts for the entry at the front: `'player'` shows the attack button, `'enemy'` attacks. */
  function Dispatch(front: Combatant): (d: TurnDecision)
    ensures d.PlayerToAct? <==> front.owner == "player"
    ensures d.EnemyToAct? <==> front.owner == "enemy"
    ensures d.PlayerToAct? || d.EnemyToAct? ==> d.attacker == front
  {
    if front.owner == "player" then PlayerToAct(front)
    else if front.owner == "enemy" then EnemyToAct(front)
    else NobodyActs
  }

  /** `nextTurn`: the new battle state and the decision taken. The front entry stays queued. */
  function NextTurn(b: Battle): (r: (Battle, TurnDecision))
    ensures !b.isBattleActive ==> r == (b, Ended(Plain))
    ensures b.isBattleActive && AllDown(b.enemyTeam) ==>
              r.1 == Ended(Victory) && r.0 == b.(isBattleActive := false)
    ensures b.isBattleActive && !AllDown(b.enemyTeam) && AllDown(b.team) ==>
              r.1 == Ended(Defeat) && r.0 == b.(isBattleActive := false)
    ensures r.1.Ended? && r.1.how == Plain ==> !b.isBattleActive || |QueueForTurn(b)| == 0
    // `endBattle` clears the flag on every way the battle ends
    ensures r.1.Ended? ==> !r.0.isBattleActive
    ensures b.isBattleActive && r.1 == Ended(Plain) ==>
              r.0 == b.(actualTurnOrder := QueueForTurn(b), isBattleActive := false)
    ensures !r.1.Ended? ==>
              && |QueueForTurn(b)| > 0
              && r.0 == b.(actualTurnOrder := QueueForTurn(b))
              && r.1 == Dispatch(QueueForTurn(b)[0])
  {
    if !b.isBattleActive then (b, Ended(Plain))
    else if AllDown(b.enemyTeam) then (b.(isBattleActive := false), Ended(Victory))
    else if AllDown(b.team) then (b.(isBattleActive := false), Ended(Defeat))
    else
      var q := QueueForTurn(b);
      var b' := b.(actualTurnOrder := q);
      if |q| == 0 then (b'.(isBattleActive := false), Ended(Plain)) else (b', Dispatch(q[0]))
  }

  /** Whether the attack button is shown after the turn. */
  function ShowsAttackButton(d: TurnDecision): Option<bool> {
    match d
    case PlayerToAct(_) => Some(true)
    case NobodyActs => None
    case _ => Some(false)
  }

  /** An empty enemy side counts as defeated, and victory is checked before defeat. */
  lemma VictoryBeforeDefeat(b: Battle)
    requires b.isBattleActive && |b.enemyTeam| == 0
    ensures NextTurn(b).1 == Ended(Victory)
  {
  }

  /** With a non-empty base order, an undecided active battle always hands the turn to its front entry. */
  lemma NonEmptyBaseNeverStalls(b: Battle)
    requires b.isBattleActive && !AllDown(b.enemyTeam) && !AllDown(b.team)
    requires |b.baseTurnOrder| > 0
    ensures !NextTurn(b).1.Ended?
    ensures |NextTurn(b).0.actualTurnOrder| >= RefillCopies
  {
  }
}
