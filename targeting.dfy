// The target-resolution rules as functions: candidate filtering per AI
// archetype, the nearest/farthest pick, one attacker's resolution with the
// fallback escalation, a whole pass over a roster, and the four-pass schedule.

module Targeting {
  import opened CalculatorTypes
  import opened Grid

  function Filter<T(==)>(s: seq<T>, p: T -> bool): (r: seq<T>)
    ensures |r| <= |s|
    ensures forall x :: x in r ==> x in s && p(x)
    ensures forall x :: x in s ==> (x in r <==> p(x))
  {
    if s == [] then [] else (if p(s[0]) then [s[0]] else []) + Filter(s[1..], p)
  }

  /** Defenders that can be attacked at all: on a slot and occupied. */
  function Eligible(defenders: seq<Tile>): seq<Tile> {
    Filter(defenders, Occupied)
  }

  function Unclaimed(tiles: seq<Tile>, claimed: seq<Tile>): seq<Tile> {
    Filter(tiles, (t: Tile) => t !in claimed)
  }

  predicate IsRangedClass(t: Tile) {
    t.character.Some? && t.character.value.charClass == RangedClass
  }

  /** `getTargets`: the candidate defenders for one attacker under one archetype. */
  function GetTargets(attacker: Tile, ai: AiType, attackers: seq<Tile>, defenders: seq<Tile>,
                      claimed: seq<Tile>): seq<Tile>
  {
    var eligible := Eligible(defenders);
    match ai
    case Melee =>
      var untouched := Unclaimed(eligible, claimed);
      if untouched == [] then eligible else untouched
    case Ranged => eligible
    case Ally => Filter(attackers, (m: Tile) => m.id != attacker.id)
    case Assassin =>
      var ranged := Filter(eligible, IsRangedClass);
      if |ranged| > 1 then Unclaimed(ranged, claimed) else ranged
    case UnknownAi => []
  }

  /**
   * Melee candidates are eligible defenders; every unclaimed eligible defender
   * is one, and a claimed one only when every eligible defender is claimed, in
   * which case all of them are; so there is one whenever an eligible defender
   * exists.
   */
  lemma MeleeCandidates(attacker: Tile, attackers: seq<Tile>, defenders: seq<Tile>, claimed: seq<Tile>)
    ensures var r := GetTargets(attacker, Melee, attackers, defenders, claimed);
      && (forall t :: t in r ==> t in defenders && Occupied(t))
      && (forall d :: d in defenders && Occupied(d) && d !in claimed ==> d in r)
      && ((exists t :: t in r && t in claimed) ==>
            forall d :: d in defenders && Occupied(d) ==> d in claimed)
      && ((forall d :: d in defenders && Occupied(d) ==> d in claimed) ==>
            forall d :: d in defenders && Occupied(d) ==> d in r)
      && (r == [] <==> forall d :: d in defenders ==> !Occupied(d))
  {
    var eligible := Eligible(defenders);
    var untouched := Unclaimed(eligible, claimed);
    if untouched == [] {
      forall d | d in defenders && Occupied(d) ensures d in claimed {
        assert d in eligible;
      }
    }
    if eligible != [] {
      assert eligible[0] in eligible;
    }
    if forall d :: d in defenders && Occupied(d) ==> d in claimed {
      EmptyWhenNoMember(untouched);
    }
  }

  /** Ranged candidates are exactly the eligible defenders, claimed or not. */
  lemma RangedCandidates(attacker: Tile, attackers: seq<Tile>, defenders: seq<Tile>, claimed: seq<Tile>)
    ensures forall t :: t in GetTargets(attacker, Ranged, attackers, defenders, claimed) <==>
                        t in defenders && Occupied(t)
  {
  }

  /**
   * Ally candidates are the attacker's own roster minus the entries sharing its
   * id; no occupancy filter applies, so placeholder entries stay candidates.
   */
  lemma AllyCandidates(attacker: Tile, attackers: seq<Tile>, defenders: seq<Tile>, claimed: seq<Tile>)
    ensures forall t :: t in GetTargets(attacker, Ally, attackers, defenders, claimed) <==>
                        t in attackers && t.id != attacker.id
  {
  }

  /**
   * Assassin candidates are Ranged-class eligible defenders; with two or more
   * of them the claimed ones are dropped (which may leave none), with at most
   * one the claims are ignored.
   */
  lemma AssassinCandidates(attacker: Tile, attackers: seq<Tile>, defenders: seq<Tile>, claimed: seq<Tile>)
    ensures var r := GetTargets(attacker, Assassin, attackers, defenders, claimed);
      var ranged := Filter(Eligible(defenders), IsRangedClass);
      && (forall t :: t in r ==> t in defenders && Occupied(t) && IsRangedClass(t))
      && (|ranged| > 1 ==> forall t :: t in r <==> t in ranged && t !in claimed)
      && (|ranged| <= 1 ==> r == ranged)
  {
  }

  /** An archetype outside the four has no candidates. */
  lemma UnknownAiCandidates(attacker: Tile, attackers: seq<Tile>, defenders: seq<Tile>, claimed: seq<Tile>)
    ensures GetTargets(attacker, UnknownAi, attackers, defenders, claimed) == []
  {
  }

  /** `a` ranks at least as well as `b`: nearer, or farther when `farthest`. */
  predicate RanksAtLeast(farthest: bool, a: nat, b: nat) {
    if farthest then a >= b else a <= b
  }

  /**
   * The element a stable sort by distance puts first: the index of a candidate
   * with the least distance (the greatest when `farthest`), ties going to the
   * earliest candidate.
   */
  function SelectTarget(origin: Coordinates, candidates: seq<Tile>, farthest: bool): (k: nat)
    requires candidates != []
    ensures k < |candidates|
    ensures forall j :: 0 <= j < |candidates| ==>
      RanksAtLeast(farthest, DistanceTo(origin, candidates[k]), DistanceTo(origin, candidates[j]))
    ensures forall j :: 0 <= j < k ==>
      !RanksAtLeast(farthest, DistanceTo(origin, candidates[j]), DistanceTo(origin, candidates[k]))
    decreases |candidates|
  {
    if |candidates| == 1 then 0
    else
      var last := |candidates| - 1;
      var k := SelectTarget(origin, candidates[..last], farthest);
      assert candidates[..last][k] == candidates[k];
      if RanksAtLeast(farthest, DistanceTo(origin, candidates[k]), DistanceTo(origin, candidates[last]))
      then k
      else last
  }

  /** The two properties of `SelectTarget` pin the chosen index down uniquely. */
  lemma SelectTargetUnique(origin: Coordinates, candidates: seq<Tile>, farthest: bool, i: nat)
    requires i < |candidates|
    requires forall j :: 0 <= j < |candidates| ==>
      RanksAtLeast(farthest, DistanceTo(origin, candidates[i]), DistanceTo(origin, candidates[j]))
    requires forall j :: 0 <= j < i ==>
      !RanksAtLeast(farthest, DistanceTo(origin, candidates[j]), DistanceTo(origin, candidates[i]))
    ensures SelectTarget(origin, candidates, farthest) == i
  {
  }

  /** Whether an attacker sits out a pass before any candidate is looked at. */
  predicate Skipped(attacker: Tile, summonMode: bool) {
    || !ValidTileId(attacker)
    || (summonMode && !(attacker.character.Some? && HasSummon(attacker.character.value)))
    || attacker.character.None?
  }

  /** An empty summon id is falsy, like a missing one. */
  predicate HasSummon(c: Character) {
    c.summonId.Some? && c.summonId.value != ""
  }

  /** The character that acts: the occupant, or in a summon pass the summon it references. */
  function ActingCharacter(attacker: Tile, summonMode: bool, catalog: CharId -> Character): Character
    requires !Skipped(attacker, summonMode)
  {
    if summonMode then catalog(attacker.character.value.summonId.value) else attacker.character.value
  }

  /** The archetype in use: the fallback, once, when the primary one finds nobody. */
  function AiInUse(attacker: Tile, actor: Character, attackers: seq<Tile>, defenders: seq<Tile>,
                   claimed: seq<Tile>): AiType
  {
    if GetTargets(attacker, actor.aiType, attackers, defenders, claimed) == [] && actor.fallbackAiType.Some?
    then actor.fallbackAiType.value
    else actor.aiType
  }

  /** One attacker's resolution against the claims made so far, or `None` when it sits out. */
  function Resolve(attacker: Tile, attackers: seq<Tile>, defenders: seq<Tile>, claimed: seq<Tile>,
                   summonMode: bool, catalog: CharId -> Character): Option<Attack>
  {
    if Skipped(attacker, summonMode) then None
    else
      var actor := ActingCharacter(attacker, summonMode, catalog);
      var ai := AiInUse(attacker, actor, attackers, defenders, claimed);
      var candidates := GetTargets(attacker, ai, attackers, defenders, claimed);
      if candidates == [] then None
      else
        var origin := PositionOf(attacker.id.value);
        var k := SelectTarget(origin, candidates, ai == Ally);
        Some(Attack(attacker, actor, candidates[k], DistanceTo(origin, candidates[k])))
  }

  /**
   * What a resolution means: it fails exactly when the attacker sits out or the
   * archetype in use has no candidate; that archetype is the primary one when it
   * finds somebody, and the fallback, once, when it finds nobody and a fallback
   * exists; otherwise the target is a candidate of that archetype at the least
   * distance (greatest for Ally), the earliest such, and the acting character is
   * the one that acts.
   */
  lemma ResolveOutcome(attacker: Tile, attackers: seq<Tile>, defenders: seq<Tile>, claimed: seq<Tile>,
                       summonMode: bool, catalog: CharId -> Character)
    ensures var r := Resolve(attacker, attackers, defenders, claimed, summonMode, catalog);
      && (Skipped(attacker, summonMode) ==> r.None?)
      && (!Skipped(attacker, summonMode) ==>
            var actor := ActingCharacter(attacker, summonMode, catalog);
            var ai := AiInUse(attacker, actor, attackers, defenders, claimed);
            var candidates := GetTargets(attacker, ai, attackers, defenders, claimed);
            var origin := PositionOf(attacker.id.value);
            var primary := GetTargets(attacker, actor.aiType, attackers, defenders, claimed);
            && (r.None? <==> candidates == [])
            && (primary != [] ==> ai == actor.aiType)
            && (primary == [] && actor.fallbackAiType.Some? ==> ai == actor.fallbackAiType.value)
            && (ai != actor.aiType ==> primary == [] && actor.fallbackAiType == Some(ai))
            && (r.Some? ==>
                  && r.value.attacker == attacker
                  && r.value.actor == actor
                  && r.value.target in candidates
                  && r.value.distance == DistanceTo(origin, r.value.target)
                  && (forall t :: t in candidates ==>
                        RanksAtLeast(ai == Ally, r.value.distance, DistanceTo(origin, t)))
                  && (exists k :: 0 <= k < |candidates| && candidates[k] == r.value.target &&
                        forall j :: 0 <= j < k ==>
                          !RanksAtLeast(ai == Ally, DistanceTo(origin, candidates[j]), r.value.distance))))
  {
    if !Skipped(attacker, summonMode) {
      var actor := ActingCharacter(attacker, summonMode, catalog);
      var ai := AiInUse(attacker, actor, attackers, defenders, claimed);
      var candidates := GetTargets(attacker, ai, attackers, defenders, claimed);
      var origin := PositionOf(attacker.id.value);
      if candidates != [] {
        var k := SelectTarget(origin, candidates, ai == Ally);
        forall t | t in candidates
          ensures RanksAtLeast(ai == Ally, DistanceTo(origin, candidates[k]), DistanceTo(origin, t))
        {
          var j :| 0 <= j < |candidates| && candidates[j] == t;
        }
      }
    }
  }

  /**
   * A Melee attacker facing any eligible defender always resolves a target,
   * even when every defender is already claimed, and never targets anyone else.
   */
  lemma MeleeNeverStarved(attacker: Tile, attackers: seq<Tile>, defenders: seq<Tile>, claimed: seq<Tile>,
                          summonMode: bool, catalog: CharId -> Character)
    requires !Skipped(attacker, summonMode)
    requires ActingCharacter(attacker, summonMode, catalog).aiType == Melee
    requires exists d :: d in defenders && Occupied(d)
    ensures var r := Resolve(attacker, attackers, defenders, claimed, summonMode, catalog);
      r.Some? && r.value.target in defenders && Occupied(r.value.target)
  {
    MeleeCandidates(attacker, attackers, defenders, claimed);
    ResolveOutcome(attacker, attackers, defenders, claimed, summonMode, catalog);
  }

  /** The attacks among step results, in order. */
  function Resolved(steps: seq<Option<Attack>>): (r: seq<Attack>)
    ensures |r| <= |steps|
  {
    if steps == [] then []
    else
      var prev := Resolved(steps[..|steps| - 1]);
      match steps[|steps| - 1]
      case None => prev
      case Some(a) => prev + [a]
  }

  /**
   * The attacks of the first `n` attackers of a roster in one pass, in roster
   * order: each attacker that resolves adds its attack.
   */
  function PassAttacks(attackers: seq<Tile>, n: nat, defenders: seq<Tile>, claimed: seq<Tile>,
                       summonMode: bool, catalog: CharId -> Character): (r: seq<Attack>)
    requires n <= |attackers|
    ensures |r| <= n
    decreases n, 1
  {
    Resolved(PassSteps(attackers, n, defenders, claimed, summonMode, catalog))
  }

  /** The resolution of attacker `j`, which sees the input claims plus those of attackers before it. */
  function StepResult(attackers: seq<Tile>, j: nat, defenders: seq<Tile>, claimed: seq<Tile>,
                      summonMode: bool, catalog: CharId -> Character): Option<Attack>
    requires j < |attackers|
    decreases j, 2
  {
    var prev := PassAttacks(attackers, j, defenders, claimed, summonMode, catalog);
    Resolve(attackers[j], attackers, defenders, claimed + TargetsOf(prev), summonMode, catalog)
  }

  /** The step results of the first `n` attackers of a pass, one per attacker. */
  function PassSteps(attackers: seq<Tile>, n: nat, defenders: seq<Tile>, claimed: seq<Tile>,
                     summonMode: bool, catalog: CharId -> Character): (r: seq<Option<Attack>>)
    requires n <= |attackers|
    ensures |r| == n
    decreases n, 0
  {
    if n == 0 then []
    else PassSteps(attackers, n - 1, defenders, claimed, summonMode, catalog)
         + [StepResult(attackers, n - 1, defenders, claimed, summonMode, catalog)]
  }

  /** Step `j` of a pass is attacker `j`'s resolution against the claims made before it. */
  lemma {:induction false} PassStepsAt(attackers: seq<Tile>, n: nat, defenders: seq<Tile>, claimed: seq<Tile>,
                                       summonMode: bool, catalog: CharId -> Character, j: nat)
    requires j < n <= |attackers|
    ensures PassSteps(attackers, n, defenders, claimed, summonMode, catalog)[j] ==
            StepResult(attackers, j, defenders, claimed, summonMode, catalog)
    decreases n
  {
    var prev := PassSteps(attackers, n - 1, defenders, claimed, summonMode, catalog);
    var last := StepResult(attackers, n - 1, defenders, claimed, summonMode, catalog);
    assert PassSteps(attackers, n, defenders, claimed, summonMode, catalog) == prev + [last];
    if j < n - 1 {
      PassStepsAt(attackers, n - 1, defenders, claimed, summonMode, catalog, j);
      assert (prev + [last])[j] == prev[j];
    }
  }

  /**
   * One step of a pass: the resolution of attacker `i` against the claims so
   * far extends the attacks and the step results by its outcome.
   */
  lemma PassAdvance(attackers: seq<Tile>, i: nat, defenders: seq<Tile>, targeted: seq<Tile>,
                    summonMode: bool, catalog: CharId -> Character,
                    events: seq<Attack>, steps: seq<Option<Attack>>, outcome: Option<Attack>)
    requires i < |attackers|
    requires events == PassAttacks(attackers, i, defenders, targeted, summonMode, catalog)
    requires steps == PassSteps(attackers, i, defenders, targeted, summonMode, catalog)
    requires outcome == Resolve(attackers[i], attackers, defenders, targeted + TargetsOf(events), summonMode, catalog)
    ensures PassAttacks(attackers, i + 1, defenders, targeted, summonMode, catalog) ==
            if outcome.Some? then events + [outcome.value] else events
    ensures PassSteps(attackers, i + 1, defenders, targeted, summonMode, catalog) == steps + [outcome]
  {
    assert StepResult(attackers, i, defenders, targeted, summonMode, catalog) == outcome;
    PassAttacksStep(attackers, i, defenders, targeted, summonMode, catalog);
  }

  /** Appending an attack appends its target to the claims. */
  lemma ClaimsAdvance(targeted: seq<Tile>, events: seq<Attack>, claims: seq<Tile>, a: Attack)
    requires claims == targeted + TargetsOf(events)
    ensures claims + [a.target] == targeted + TargetsOf(events + [a])
  {
    TargetsOfSnoc(events, a);
    assert targeted + (TargetsOf(events) + [a.target]) == claims + [a.target];
  }

  /**
   * A resolved target is one the archetype in use allows: an eligible defender,
   * or, for Ally, another entry of the attacker's own roster.
   */
  lemma ResolveTargetAllowed(attacker: Tile, attackers: seq<Tile>, defenders: seq<Tile>, claimed: seq<Tile>,
                             summonMode: bool, catalog: CharId -> Character)
    ensures var r := Resolve(attacker, attackers, defenders, claimed, summonMode, catalog);
      r.Some? ==>
        && r.value.attacker == attacker
        && !Skipped(attacker, summonMode)
        && ((r.value.target in defenders && Occupied(r.value.target)) ||
            (r.value.target in attackers && r.value.target.id != attacker.id))
  {
    var r := Resolve(attacker, attackers, defenders, claimed, summonMode, catalog);
    if r.Some? {
      ResolveOutcome(attacker, attackers, defenders, claimed, summonMode, catalog);
      var actor := ActingCharacter(attacker, summonMode, catalog);
      var ai := AiInUse(attacker, actor, attackers, defenders, claimed);
      match ai
      case Melee => MeleeCandidates(attacker, attackers, defenders, claimed);
      case Ranged => RangedCandidates(attacker, attackers, defenders, claimed);
      case Ally => AllyCandidates(attacker, attackers, defenders, claimed);
      case Assassin => AssassinCandidates(attacker, attackers, defenders, claimed);
      case UnknownAi => UnknownAiCandidates(attacker, attackers, defenders, claimed);
    }
  }

  /** Unfolding one step of a pass. */
  lemma PassAttacksStep(attackers: seq<Tile>, n: nat, defenders: seq<Tile>, claimed: seq<Tile>,
                        summonMode: bool, catalog: CharId -> Character)
    requires n < |attackers|
    ensures var prev := PassAttacks(attackers, n, defenders, claimed, summonMode, catalog);
      var r := StepResult(attackers, n, defenders, claimed, summonMode, catalog);
      PassAttacks(attackers, n + 1, defenders, claimed, summonMode, catalog) ==
        if r.Some? then prev + [r.value] else prev
  {
    var steps := PassSteps(attackers, n + 1, defenders, claimed, summonMode, catalog);
    assert steps[..n] == PassSteps(attackers, n, defenders, claimed, summonMode, catalog);
  }

  /**
   * Every attack of a pass comes from an attacker of the roster that does not
   * sit out, and hits a candidate its archetype allows.
   */
  lemma {:induction false} PassAttacksWellFormed(attackers: seq<Tile>, n: nat, defenders: seq<Tile>,
                                                 claimed: seq<Tile>, summonMode: bool,
                                                 catalog: CharId -> Character)
    requires n <= |attackers|
    ensures forall a :: a in PassAttacks(attackers, n, defenders, claimed, summonMode, catalog) ==>
      && a.attacker in attackers[..n]
      && !Skipped(a.attacker, summonMode)
      && ((a.target in defenders && Occupied(a.target)) ||
          (a.target in attackers && a.target.id != a.attacker.id))
  {
    if n > 0 {
      PassAttacksWellFormed(attackers, n - 1, defenders, claimed, summonMode, catalog);
      PassAttacksStep(attackers, n - 1, defenders, claimed, summonMode, catalog);
      var prev := PassAttacks(attackers, n - 1, defenders, claimed, summonMode, catalog);
      ResolveTargetAllowed(attackers[n - 1], attackers, defenders, claimed + TargetsOf(prev), summonMode, catalog);
      assert attackers[..n] == attackers[..n - 1] + [attackers[n - 1]];
    }
  }

  /**
   * An attacker that sits out a pass resolves nothing there: its step is empty,
   * so no event of the pass is its attack and it adds no claim.
   */
  lemma SkippedAttackerSitsOut(attackers: seq<Tile>, n: nat, defenders: seq<Tile>, claimed: seq<Tile>,
                               summonMode: bool, catalog: CharId -> Character, j: nat)
    requires j < n <= |attackers|
    requires Skipped(attackers[j], summonMode)
    ensures PassSteps(attackers, n, defenders, claimed, summonMode, catalog)[j] == None
    ensures forall a :: a in PassAttacks(attackers, n, defenders, claimed, summonMode, catalog) ==>
      a.attacker != attackers[j]
  {
    PassStepsAt(attackers, n, defenders, claimed, summonMode, catalog, j);
    PassAttacksWellFormed(attackers, n, defenders, claimed, summonMode, catalog);
  }

  lemma EmptyWhenNoMember<T>(r: seq<T>)
    ensures (forall t :: t !in r) ==> r == []
  {
    if r != [] {
      assert r[0] in r;
    }
  }

  /**
   * The Assassin rule finds nobody exactly when no eligible defender is of the
   * Ranged class, or two or more are and every one of them is claimed; the
   * Assassin then escalates to its fallback, when it has one.
   */
  lemma AssassinFallsBack(attacker: Tile, actor: Character, attackers: seq<Tile>, defenders: seq<Tile>,
                          claimed: seq<Tile>)
    requires actor.aiType == Assassin
    ensures GetTargets(attacker, Assassin, attackers, defenders, claimed) == [] <==>
      || (forall d :: d in defenders && Occupied(d) ==> !IsRangedClass(d))
      || (&& |Filter(Eligible(defenders), IsRangedClass)| > 1
          && forall d :: d in defenders && Occupied(d) && IsRangedClass(d) ==> d in claimed)
    ensures GetTargets(attacker, Assassin, attackers, defenders, claimed) == [] && actor.fallbackAiType.Some? ==>
      AiInUse(attacker, actor, attackers, defenders, claimed) == actor.fallbackAiType.value
  {
    AssassinCandidates(attacker, attackers, defenders, claimed);
    var ranged := Filter(Eligible(defenders), IsRangedClass);
    var r := GetTargets(attacker, Assassin, attackers, defenders, claimed);
    if forall d :: d in defenders && Occupied(d) ==> !IsRangedClass(d) {
      EmptyWhenNoMember(ranged);
    } else if |ranged| > 1 && forall d :: d in defenders && Occupied(d) && IsRangedClass(d) ==> d in claimed {
      EmptyWhenNoMember(r);
    }
  }

  /**
   * Building an attack's event text reads the target's character name, which
   * throws when the picked target holds no character.
   */
  predicate Throws(o: Option<Attack>) {
    o.Some? && o.value.target.character.None?
  }

  /** No step of a pass throws. */
  predicate NoThrow(steps: seq<Option<Attack>>) {
    forall j :: 0 <= j < |steps| ==> !Throws(steps[j])
  }

  /**
   * Only an Ally pick can throw, since every other archetype picks an occupied
   * defender; the target is then another entry of the attacker's own roster,
   * and a placeholder when every entry of that roster on a slot holds a character.
   */
  lemma ThrowsOnlyOnAllyPick(attacker: Tile, attackers: seq<Tile>, defenders: seq<Tile>, claimed: seq<Tile>,
                             summonMode: bool, catalog: CharId -> Character)
    ensures var r := Resolve(attacker, attackers, defenders, claimed, summonMode, catalog);
      Throws(r) ==>
        && !Skipped(attacker, summonMode)
        && AiInUse(attacker, ActingCharacter(attacker, summonMode, catalog), attackers, defenders, claimed) == Ally
        && r.value.target in attackers && r.value.target.id != attacker.id
        && ((forall t :: t in attackers && ValidTileId(t) ==> t.character.Some?) ==> !ValidTileId(r.value.target))
  {
    var r := Resolve(attacker, attackers, defenders, claimed, summonMode, catalog);
    if Throws(r) {
      ResolveOutcome(attacker, attackers, defenders, claimed, summonMode, catalog);
      var actor := ActingCharacter(attacker, summonMode, catalog);
      match AiInUse(attacker, actor, attackers, defenders, claimed)
      case Melee => MeleeCandidates(attacker, attackers, defenders, claimed);
      case Ranged => RangedCandidates(attacker, attackers, defenders, claimed);
      case Ally => AllyCandidates(attacker, attackers, defenders, claimed);
      case Assassin => AssassinCandidates(attacker, attackers, defenders, claimed);
      case UnknownAi => UnknownAiCandidates(attacker, attackers, defenders, claimed);
    }
  }

  /**
   * How many steps a pass gets through: all of them, or, when one throws, those
   * up to and including the first that throws.
   */
  function StepsRun(steps: seq<Option<Attack>>): (n: nat)
    ensures n <= |steps|
    ensures NoThrow(steps) ==> n == |steps|
    ensures !NoThrow(steps) ==> 0 < n && Throws(steps[n - 1]) && NoThrow(steps[..n - 1])
  {
    if steps == [] then 0
    else if Throws(steps[0]) then 1
    else
      var m := StepsRun(steps[1..]);
      assert forall j :: 1 <= j < |steps| ==> steps[j] == steps[1..][j - 1];
      1 + m
  }

  /** The first `m` steps of a pass are the steps of its first `m` attackers. */
  lemma PassStepsPrefix(attackers: seq<Tile>, m: nat, n: nat, defenders: seq<Tile>, claimed: seq<Tile>,
                        summonMode: bool, catalog: CharId -> Character)
    requires m <= n <= |attackers|
    ensures PassSteps(attackers, n, defenders, claimed, summonMode, catalog)[..m] ==
            PassSteps(attackers, m, defenders, claimed, summonMode, catalog)
  {
    forall j | 0 <= j < m
      ensures PassSteps(attackers, n, defenders, claimed, summonMode, catalog)[j] ==
              PassSteps(attackers, m, defenders, claimed, summonMode, catalog)[j]
    {
      PassStepsAt(attackers, n, defenders, claimed, summonMode, catalog, j);
      PassStepsAt(attackers, m, defenders, claimed, summonMode, catalog, j);
    }
  }

  /**
   * The steps a pass actually runs: every attacker's, or, when an attacker's
   * event throws, those up to and including that attacker's; the exception
   * then ends the pass and the whole recalculation.
   */
  function PassRun(attackers: seq<Tile>, defenders: seq<Tile>, claimed: seq<Tile>,
                   summonMode: bool, catalog: CharId -> Character): (r: seq<Option<Attack>>)
    ensures |r| <= |attackers|
    ensures NoThrow(r) ==> |r| == |attackers|
    ensures !NoThrow(r) ==> 0 < |r| && Throws(r[|r| - 1]) && NoThrow(r[..|r| - 1])
  {
    var all := PassSteps(attackers, |attackers|, defenders, claimed, summonMode, catalog);
    var n := StepsRun(all);
    assert n > 0 ==> all[..n][..n - 1] == all[..n - 1];
    all[..n]
  }

  /** The steps a pass runs are the steps of its first attackers. */
  lemma PassRunIsPrefix(attackers: seq<Tile>, defenders: seq<Tile>, claimed: seq<Tile>,
                        summonMode: bool, catalog: CharId -> Character)
    ensures var r := PassRun(attackers, defenders, claimed, summonMode, catalog);
      r == PassSteps(attackers, |r|, defenders, claimed, summonMode, catalog)
  {
    var r := PassRun(attackers, defenders, claimed, summonMode, catalog);
    PassStepsPrefix(attackers, |r|, |attackers|, defenders, claimed, summonMode, catalog);
  }

  /** A pass that reaches attacker `i` without a throw, and throws there, stops after it. */
  lemma PassRunStops(attackers: seq<Tile>, i: nat, defenders: seq<Tile>, claimed: seq<Tile>,
                     summonMode: bool, catalog: CharId -> Character)
    requires i < |attackers|
    requires NoThrow(PassSteps(attackers, i, defenders, claimed, summonMode, catalog))
    requires Throws(StepResult(attackers, i, defenders, claimed, summonMode, catalog))
    ensures PassRun(attackers, defenders, claimed, summonMode, catalog) ==
            PassSteps(attackers, i + 1, defenders, claimed, summonMode, catalog)
  {
    var r := PassRun(attackers, defenders, claimed, summonMode, catalog);
    PassRunIsPrefix(attackers, defenders, claimed, summonMode, catalog);
    if |r| <= i {
      PassStepsPrefix(attackers, |r|, i, defenders, claimed, summonMode, catalog);
    } else if |r| > i + 1 {
      PassStepsAt(attackers, |r|, defenders, claimed, summonMode, catalog, i);
    }
  }

  /** A pass in which no attacker throws runs every attacker. */
  lemma PassRunCompletes(attackers: seq<Tile>, defenders: seq<Tile>, claimed: seq<Tile>,
                         summonMode: bool, catalog: CharId -> Character)
    requires NoThrow(PassSteps(attackers, |attackers|, defenders, claimed, summonMode, catalog))
    ensures PassRun(attackers, defenders, claimed, summonMode, catalog) ==
            PassSteps(attackers, |attackers|, defenders, claimed, summonMode, catalog)
  {
    var r := PassRun(attackers, defenders, claimed, summonMode, catalog);
    PassRunIsPrefix(attackers, defenders, claimed, summonMode, catalog);
    PassStepsPrefix(attackers, |r|, |attackers|, defenders, claimed, summonMode, catalog);
    assert forall j :: 0 <= j < |r| ==>
      r[j] == PassSteps(attackers, |attackers|, defenders, claimed, summonMode, catalog)[j];
  }

  /** When every entry of the attacking roster holds a character, no step of its pass throws. */
  lemma {:induction false} PassNoThrow(attackers: seq<Tile>, n: nat, defenders: seq<Tile>, claimed: seq<Tile>,
                                       summonMode: bool, catalog: CharId -> Character)
    requires n <= |attackers|
    requires forall t :: t in attackers ==> t.character.Some?
    ensures NoThrow(PassSteps(attackers, n, defenders, claimed, summonMode, catalog))
  {
    if n > 0 {
      PassNoThrow(attackers, n - 1, defenders, claimed, summonMode, catalog);
      var prev := PassAttacks(attackers, n - 1, defenders, claimed, summonMode, catalog);
      ThrowsOnlyOnAllyPick(attackers[n - 1], attackers, defenders, claimed + TargetsOf(prev), summonMode, catalog);
    }
  }

  /**
   * One full resolution: the per-attacker outcomes of the four passes (good on
   * evil, evil on good, good summons on evil, evil summons on good), each
   * cut short at a throw, and empty for a pass that never ran.
   */
  datatype Schedule = Schedule(
    goodSteps: seq<Option<Attack>>,
    evilSteps: seq<Option<Attack>>,
    goodSummonSteps: seq<Option<Attack>>,
    evilSummonSteps: seq<Option<Attack>>)
  {
    function GoodAttacks(): seq<Attack> { Resolved(goodSteps) }
    function EvilAttacks(): seq<Attack> { Resolved(evilSteps) }
    function GoodSummonAttacks(): seq<Attack> { Resolved(goodSummonSteps) }
    function EvilSummonAttacks(): seq<Attack> { Resolved(evilSummonSteps) }

    /** The claims before pass `k` (0 to 3), and after the last pass for `k` = 4. */
    function ClaimsBefore(k: nat): seq<Tile>
      requires k <= 4
    {
      if k == 0 then []
      else if k == 1 then TargetsOf(GoodAttacks())
      else if k == 2 then TargetsOf(GoodAttacks()) + TargetsOf(EvilAttacks())
      else if k == 3 then TargetsOf(GoodAttacks()) + TargetsOf(EvilAttacks()) + TargetsOf(GoodSummonAttacks())
      else TargetsOf(GoodAttacks()) + TargetsOf(EvilAttacks()) + TargetsOf(GoodSummonAttacks())
           + TargetsOf(EvilSummonAttacks())
    }

    /** The event list: the four passes' attacks concatenated in pass order. */
    function Events(): seq<Attack> {
      GoodAttacks() + EvilAttacks() + GoodSummonAttacks() + EvilSummonAttacks()
    }

    /** No pass threw, so the recalculation ran to its end. */
    predicate Completed() {
      NoThrow(goodSteps) && NoThrow(evilSteps) && NoThrow(goodSummonSteps) && NoThrow(evilSummonSteps)
    }

    /** The events a recalculation leaves: these when it completed, `previous` when it threw. */
    function EventsAfter(previous: seq<Attack>): seq<Attack> {
      if Completed() then Events() else previous
    }
  }

  /**
   * The four passes in their fixed order, each seeing the claims of all before,
   * starting from no claims; a throw in one pass stops it, and no later pass runs.
   */
  function ResolveAll(good: seq<Tile>, evil: seq<Tile>, catalog: CharId -> Character): (s: Schedule)
    ensures |s.goodSteps| <= |good| && |s.goodSummonSteps| <= |good|
    ensures |s.evilSteps| <= |evil| && |s.evilSummonSteps| <= |evil|
    ensures s.Completed() ==>
      |s.goodSteps| == |s.goodSummonSteps| == |good| && |s.evilSteps| == |s.evilSummonSteps| == |evil|
  {
    var s1 := PassRun(good, evil, [], false, catalog);
    var c1 := TargetsOf(Resolved(s1));
    var s2 := if NoThrow(s1) then PassRun(evil, good, c1, false, catalog) else [];
    var c2 := c1 + TargetsOf(Resolved(s2));
    var s3 := if NoThrow(s1) && NoThrow(s2) then PassRun(good, evil, c2, true, catalog) else [];
    var c3 := c2 + TargetsOf(Resolved(s3));
    var s4 := if NoThrow(s1) && NoThrow(s2) && NoThrow(s3) then PassRun(evil, good, c3, true, catalog) else [];
    Schedule(s1, s2, s3, s4)
  }

  /**
   * Four passes run one after the other, each seeing the claims of those
   * before, starting from none, and each run only when none before it threw,
   * make up `ResolveAll`; when none threw, their attacks concatenated are its events.
   */
  lemma ScheduleOfPasses(good: seq<Tile>, evil: seq<Tile>, catalog: CharId -> Character,
                         e1: seq<Attack>, e2: seq<Attack>, e3: seq<Attack>, e4: seq<Attack>,
                         c1: seq<Tile>, c2: seq<Tile>, c3: seq<Tile>,
                         s1: seq<Option<Attack>>, s2: seq<Option<Attack>>,
                         s3: seq<Option<Attack>>, s4: seq<Option<Attack>>)
    requires s1 == PassRun(good, evil, [], false, catalog)
    requires NoThrow(s1) ==> e1 == Resolved(s1) && c1 == [] + TargetsOf(e1)
    requires s2 == if NoThrow(s1) then PassRun(evil, good, c1, false, catalog) else []
    requires NoThrow(s1) && NoThrow(s2) ==> e2 == Resolved(s2) && c2 == c1 + TargetsOf(e2)
    requires s3 == if NoThrow(s1) && NoThrow(s2) then PassRun(good, evil, c2, true, catalog) else []
    requires NoThrow(s1) && NoThrow(s2) && NoThrow(s3) ==> e3 == Resolved(s3) && c3 == c2 + TargetsOf(e3)
    requires s4 == if NoThrow(s1) && NoThrow(s2) && NoThrow(s3) then PassRun(evil, good, c3, true, catalog) else []
    requires NoThrow(s1) && NoThrow(s2) && NoThrow(s3) && NoThrow(s4) ==> e4 == Resolved(s4)
    ensures ResolveAll(good, evil, catalog) == Schedule(s1, s2, s3, s4)
    ensures Schedule(s1, s2, s3, s4).Completed() ==> Schedule(s1, s2, s3, s4).Events() == e1 + e2 + e3 + e4
  {
    if NoThrow(s1) {
      assert c1 == TargetsOf(e1);
    }
  }

  /**
   * An Ally pick of a placeholder without a character: a good-side Ally on slot
   * 28 (column 1, row 3), a teammate on slot 29 and a placeholder, which counts
   * as slot 0 (column 1, row 1). The placeholder is the farthest candidate, so
   * it is picked, and its event throws.
   */
  lemma AllyPicksBarePlaceholder(ally: Tile, mate: Tile, blank: Tile, healer: Character,
                                 evil: seq<Tile>, catalog: CharId -> Character)
    requires ally.id == Some(28) && ally.character == Some(healer) && healer.aiType == Ally
    requires mate.id == Some(29) && mate.character.Some?
    requires blank.id == None && blank.character == None
    ensures Resolve(ally, [ally, mate, blank], evil, [], false, catalog) == Some(Attack(ally, healer, blank, 4))
    ensures Throws(Resolve(ally, [ally, mate, blank], evil, [], false, catalog))
  {
    var good := [ally, mate, blank];
    BarePlaceholderIsFarther(ally, mate, blank, evil);
    assert PositionOf(28) == Coordinates(1, 3);
    assert !Skipped(ally, false) && ActingCharacter(ally, false, catalog) == healer;
    assert AiInUse(ally, healer, good, evil, []) == Ally;
  }

  /**
   * For an Ally on slot 28 with a mate on slot 29 and a placeholder, the mates
   * are its candidates, and the placeholder, counted at slot 0, is the farther.
   */
  lemma BarePlaceholderIsFarther(ally: Tile, mate: Tile, blank: Tile, evil: seq<Tile>)
    requires ally.id == Some(28) && mate.id == Some(29) && blank.id == None
    ensures GetTargets(ally, Ally, [ally, mate, blank], evil, []) == [mate, blank]
    ensures DistanceTo(Coordinates(1, 3), blank) == 4
    ensures SelectTarget(Coordinates(1, 3), [mate, blank], true) == 1
  {
    var good := [ally, mate, blank];
    var other := (m: Tile) => m.id != ally.id;
    assert good[1..] == [mate, blank] && [mate, blank][1..] == [blank] && [blank][1..] == [];
    assert Filter([blank], other) == [blank];
    assert Filter([mate, blank], other) == [mate, blank];
    assert PositionOf(29) == Coordinates(2, 3);
    assert PositionOf(0) == Coordinates(1, 1);
    assert DistanceTo(Coordinates(1, 3), mate) == 1;
    assert [mate, blank][..1] == [mate];
  }

  /**
   * With the roster of `AllyPicksBarePlaceholder`, the recalculation stops at
   * its first attacker: the first pass runs that one step, and no later pass runs.
   */
  lemma RecalculationStopsAtBarePlaceholder(ally: Tile, mate: Tile, blank: Tile, healer: Character,
                                            evil: seq<Tile>, catalog: CharId -> Character)
    requires ally.id == Some(28) && ally.character == Some(healer) && healer.aiType == Ally
    requires mate.id == Some(29) && mate.character.Some?
    requires blank.id == None && blank.character == None
    ensures PassRun([ally, mate, blank], evil, [], false, catalog) == [Some(Attack(ally, healer, blank, 4))]
    ensures var s := ResolveAll([ally, mate, blank], evil, catalog);
      !s.Completed() && s.evilSteps == [] && s.goodSummonSteps == [] && s.evilSummonSteps == []
  {
    var good := [ally, mate, blank];
    AllyPicksBarePlaceholder(ally, mate, blank, healer, evil, catalog);
    var r := Resolve(ally, good, evil, [], false, catalog);
    assert PassAttacks(good, 0, evil, [], false, catalog) == [];
    assert StepResult(good, 0, evil, [], false, catalog) == r by {
      assert [] + TargetsOf([]) == [];
    }
    PassRunStops(good, 0, evil, [], false, catalog);
  }

  /** When every entry of both rosters holds a character, a recalculation runs all four passes to their end. */
  lemma CompletesWhenEveryEntryHoldsACharacter(good: seq<Tile>, evil: seq<Tile>, catalog: CharId -> Character)
    requires forall t :: t in good ==> t.character.Some?
    requires forall t :: t in evil ==> t.character.Some?
    ensures ResolveAll(good, evil, catalog).Completed()
  {
    var s := ResolveAll(good, evil, catalog);
    PassNoThrow(good, |good|, evil, [], false, catalog);
    PassRunCompletes(good, evil, [], false, catalog);
    PassNoThrow(evil, |evil|, good, s.ClaimsBefore(1), false, catalog);
    PassRunCompletes(evil, good, s.ClaimsBefore(1), false, catalog);
    PassNoThrow(good, |good|, evil, s.ClaimsBefore(2), true, catalog);
    PassRunCompletes(good, evil, s.ClaimsBefore(2), true, catalog);
    PassNoThrow(evil, |evil|, good, s.ClaimsBefore(3), true, catalog);
    PassRunCompletes(evil, good, s.ClaimsBefore(3), true, catalog);
  }

  lemma TargetsOfSnoc(a: seq<Attack>, x: Attack)
    ensures TargetsOf(a + [x]) == TargetsOf(a) + [x.target]
  {
    assert (a + [x])[..|a|] == a;
  }

  lemma TargetsOfConcat(a: seq<Attack>, b: seq<Attack>)
    ensures TargetsOf(a + b) == TargetsOf(a) + TargetsOf(b)
  {
    assert |TargetsOf(a + b)| == |TargetsOf(a) + TargetsOf(b)|;
    forall i | 0 <= i < |a| + |b|
      ensures TargetsOf(a + b)[i] == (TargetsOf(a) + TargetsOf(b))[i]
    {
      if i < |a| {
        assert (a + b)[i] == a[i];
      } else {
        assert (a + b)[i] == b[i - |a|];
      }
    }
  }

  /**
   * In any schedule the claims before each pass extend those before the previous
   * one, and the claims after the last pass are the targets of the event list.
   */
  lemma ScheduleClaims(s: Schedule)
    ensures s.ClaimsBefore(0) == []
    ensures s.ClaimsBefore(0) <= s.ClaimsBefore(1) <= s.ClaimsBefore(2) <= s.ClaimsBefore(3) <= s.ClaimsBefore(4)
    ensures s.ClaimsBefore(4) == TargetsOf(s.Events())
  {
    ClaimsChain(s.GoodAttacks(), s.EvilAttacks(), s.GoodSummonAttacks(), s.EvilSummonAttacks());
  }

  /** The claims of four attack lists, concatenated, are the claims of their concatenation. */
  lemma ClaimsChain(a: seq<Attack>, b: seq<Attack>, c: seq<Attack>, d: seq<Attack>)
    ensures TargetsOf(a) + TargetsOf(b) + TargetsOf(c) + TargetsOf(d) == TargetsOf(a + b + c + d)
  {
    TargetsOfConcat(a, b);
    TargetsOfConcat(a + b, c);
    TargetsOfConcat(a + b + c, d);
  }

  /**
   * The claims a recalculation threads: pass `k` runs on the claims of the
   * passes before it, starting from none, and only when none of them threw.
   */
  lemma PassesSeePriorClaims(good: seq<Tile>, evil: seq<Tile>, catalog: CharId -> Character)
    ensures var s := ResolveAll(good, evil, catalog);
      && s.goodSteps == PassRun(good, evil, s.ClaimsBefore(0), false, catalog)
      && s.evilSteps == (if NoThrow(s.goodSteps) then PassRun(evil, good, s.ClaimsBefore(1), false, catalog) else [])
      && s.goodSummonSteps ==
           (if NoThrow(s.goodSteps) && NoThrow(s.evilSteps) then PassRun(good, evil, s.ClaimsBefore(2), true, catalog)
            else [])
      && s.evilSummonSteps ==
           (if NoThrow(s.goodSteps) && NoThrow(s.evilSteps) && NoThrow(s.goodSummonSteps)
            then PassRun(evil, good, s.ClaimsBefore(3), true, catalog) else [])
  {
    var s := ResolveAll(good, evil, catalog);
    assert s.ClaimsBefore(1) == TargetsOf(Resolved(s.goodSteps));
    assert s.ClaimsBefore(2) == s.ClaimsBefore(1) + TargetsOf(Resolved(s.evilSteps));
    assert s.ClaimsBefore(3) == s.ClaimsBefore(2) + TargetsOf(Resolved(s.goodSummonSteps));
  }

  /**
   * Claims only grow across the passes, one per event, so the final claims are
   * the targets of the events in order; each roster resolves at most one attack
   * per entry per pass.
   */
  lemma ClaimsGrowAcrossPasses(good: seq<Tile>, evil: seq<Tile>, catalog: CharId -> Character)
    ensures var s := ResolveAll(good, evil, catalog);
      && s.ClaimsBefore(0) == []
      && s.ClaimsBefore(0) <= s.ClaimsBefore(1) <= s.ClaimsBefore(2) <= s.ClaimsBefore(3) <= s.ClaimsBefore(4)
      && s.ClaimsBefore(4) == TargetsOf(s.Events())
      && |s.GoodAttacks()| + |s.GoodSummonAttacks()| <= 2 * |good|
      && |s.EvilAttacks()| + |s.EvilSummonAttacks()| <= 2 * |evil|
  {
    ScheduleClaims(ResolveAll(good, evil, catalog));
  }
}
