/** The damage operation of
    Assets/EGamePlay/Combat/CombatAction/DamageOperation.cs.  The value
    formula is a pure function of the operation's fields and the two
    combatants' stats; the operation object itself is a class whose
    `BeforeDamage` and `ApplyDamage` update `DamageValue` and `IsCritical`
    in place and record, in order, the calls made into the combatants. */
module DamageOperations {
  import opened Wrappers
  import opened Int32Text

  /** `DamageSource`: where the damage comes from. */
  datatype DamageSource = Attack | Skill | Buff {
    /** The enum's underlying value. */
    function Code(): (c: int)
      ensures 1 <= c <= 3
    {
      match this
      case Attack => 1
      case Skill => 2
      case Buff => 3
    }
  }

  /** `DamageType` is declared outside this file; only its identity matters. */
  type DamageType = nat

  /** The stats of a combat entity that the formula reads:
      `NumericBox.PhysicAttack_I.Value` and `NumericBox.PhysicDefense_I.Value`. */
  datatype Combatant = Combatant(id: nat, physicAttack: Int32, physicDefense: Int32)

  /** The properties of the operation that the combatants can observe when
      they are handed `this`. */
  datatype DamageView = DamageView(
    source: DamageSource,
    damageType: DamageType,
    value: Int32,
    isCritical: bool,
    canCritical: bool)

  /** The two `CombatActionType` values the operation triggers. */
  datatype ActionType = CauseDamage | ReceiveDamage

  /** Calls into combatant code: `Target.ReceiveDamage(this)` and
      `entity.TriggerAction(action, this)`. */
  datatype DamageCall =
    | TargetReceiveDamage(entity: nat, op: DamageView)
    | TriggerAction(entity: nat, action: ActionType, op: DamageView)

  /** Bases up to this bound make `base * 1.5f` exact in single precision
      (3 * 2^22 is well below 2^24). */
  const CritExactBound: int := 0x40_0000

  /** `Mathf.Max(1, atk - def)`, the subtraction being C#'s unchecked `int`
      subtraction. */
  function AttackBase(atk: Int32, def: Int32): (r: Int32)
    ensures r >= 1
    ensures InInt32(atk - def) ==> r == if atk - def < 1 then 1 else atk - def
  {
    var d := Wrap32(atk - def);
    if d < 1 then 1 else d
  }

  /** `(int)(v * 1.5f)` for a base small enough that the product is exact:
      the largest integer not above one and a half times `v`. */
  function CriticalValue(v: int): (r: Int32)
    requires 1 <= v <= CritExactBound
    ensures 2 * r <= 3 * v < 2 * r + 2
  {
    v + v / 2
  }

  /** The caller's obligation wherever a critical attack is computed: the
      base must be small enough for the single-precision product to be exact. */
  predicate CritExact(source: DamageSource, creator: Combatant, target: Combatant, critRoll: bool) {
    source == Attack && critRoll ==> AttackBase(creator.physicAttack, target.physicDefense) <= CritExactBound
  }

  /** What `BeforeDamage` does to the observable properties.  `critRoll`
      stands for the outcome of `RandomRate() / 100f < CriticalProb_F`.
      An Attack sets `IsCritical` from the roll and computes the value; a
      Skill parses its expression, failing as `int.Parse` does; a Buff
      changes nothing. */
  function BeforeDamageEffect(op: DamageView, expression: Option<string>, creator: Combatant, target: Combatant,
                              critRoll: bool): (r: Result<DamageView, ParseError>)
    requires CritExact(op.source, creator, target, critRoll)
    ensures r.Ok? ==> r.value.source == op.source && r.value.damageType == op.damageType &&
                      r.value.canCritical == op.canCritical
    ensures r.Err? ==> op.source == Skill
  {
    match op.source
    case Attack =>
      var base := AttackBase(creator.physicAttack, target.physicDefense);
      Ok(op.(isCritical := critRoll, value := if critRoll then CriticalValue(base) else base))
    case Skill =>
      var parsed := ParseInt32(expression);
      if parsed.Ok? then Ok(op.(value := parsed.value)) else Err(parsed.error)
    case Buff =>
      Ok(op)
  }

  /** The calls `ApplyDamage` makes after the value is computed, in order:
      `Target.ReceiveDamage`, then `Creator.TriggerAction(CauseDamage)`,
      then `Target.TriggerAction(ReceiveDamage)`, all handed the same
      operation. */
  function DamageCalls(creator: nat, target: nat, op: DamageView): (r: seq<DamageCall>)
    ensures |r| == 3 && forall i :: 0 <= i < |r| ==> r[i].op == op
  {
    [TargetReceiveDamage(target, op), TriggerAction(creator, CauseDamage, op), TriggerAction(target, ReceiveDamage, op)]
  }

  // ---------------------------------------------------------------------
  // Properties of the formula

  /** The enum values are 1, 2 and 3, one per source. */
  lemma SourceCodes()
    ensures Attack.Code() == 1 && Skill.Code() == 2 && Buff.Code() == 3
    ensures forall a: DamageSource, b: DamageSource :: a.Code() == b.Code() ==> a == b
  {
  }

  /** An Attack always succeeds, marks the hit critical exactly when the
      roll says so, and deals at least one point whether critical or not. */
  lemma AttackAtLeastOne(op: DamageView, expression: Option<string>, creator: Combatant, target: Combatant, critRoll: bool)
    requires op.source == Attack && CritExact(op.source, creator, target, critRoll)
    ensures var r := BeforeDamageEffect(op, expression, creator, target, critRoll);
      r.Ok? && r.value.isCritical == critRoll && r.value.value >= 1
  {
  }

  /** A plain (non-critical) Attack deals `max(1, atk - def)` when the
      subtraction does not overflow. */
  lemma AttackPlainValue(op: DamageView, expression: Option<string>, creator: Combatant, target: Combatant)
    requires op.source == Attack && InInt32(creator.physicAttack - target.physicDefense)
    ensures var r := BeforeDamageEffect(op, expression, creator, target, false);
      var d := creator.physicAttack - target.physicDefense;
      r.Ok? && r.value.value == (if d < 1 then 1 else d)
  {
  }

  /** A critical Attack deals one and a half times the plain value, rounded
      down, and never less than the plain value. */
  lemma AttackCriticalValue(op: DamageView, expression: Option<string>, creator: Combatant, target: Combatant)
    requires op.source == Attack && CritExact(op.source, creator, target, true)
    ensures var plain := BeforeDamageEffect(op, expression, creator, target, false).value.value;
      var r := BeforeDamageEffect(op, expression, creator, target, true);
      r.Ok? && 2 * r.value.value <= 3 * plain < 2 * r.value.value + 2 && r.value.value >= plain
  {
  }

  /** Worked values: 100 against 30 gives 70, 10 against 50 is clamped to
      1, and a critical 70 gives 105. */
  lemma AttackExamples(op: DamageView, expression: Option<string>)
    requires op.source == Attack
    ensures BeforeDamageEffect(op, expression, Combatant(1, 100, 0), Combatant(2, 0, 30), false).value.value == 70
    ensures BeforeDamageEffect(op, expression, Combatant(1, 10, 0), Combatant(2, 0, 50), false).value.value == 1
    ensures BeforeDamageEffect(op, expression, Combatant(1, 100, 0), Combatant(2, 0, 30), true).value.value == 105
  {
  }

  /** The subtraction wraps: the largest attack against a defense of -1
      overflows to `int.MinValue`, which the clamp turns into 1. */
  lemma AttackWrapExample(op: DamageView, expression: Option<string>)
    requires op.source == Attack
    ensures BeforeDamageEffect(op, expression, Combatant(1, MaxInt32, 0), Combatant(2, 0, -1), false).value.value == 1
  {
  }

  /** A Skill's value is the parse of its expression, whatever the stats
      and the roll; a malformed or out-of-range expression, or a missing
      one, is the failure `int.Parse` raises.  `IsCritical` is kept. */
  lemma SkillParsesExpression(op: DamageView, expression: Option<string>, creator: Combatant, target: Combatant,
                              critRoll: bool, creator2: Combatant, target2: Combatant, critRoll2: bool)
    requires op.source == Skill
    ensures var r := BeforeDamageEffect(op, expression, creator, target, critRoll);
      r == BeforeDamageEffect(op, expression, creator2, target2, critRoll2) &&
      (r.Ok? <==> ParseInt32(expression).Ok?) &&
      (r.Ok? ==> r.value == op.(value := ParseInt32(expression).value)) &&
      (r.Err? ==> r.error == ParseInt32(expression).error)
  {
  }

  /** A Buff leaves the value and the critical flag as the caller set them. */
  lemma BuffKeepsValue(op: DamageView, expression: Option<string>, creator: Combatant, target: Combatant, critRoll: bool)
    requires op.source == Buff
    ensures BeforeDamageEffect(op, expression, creator, target, critRoll) == Ok(op)
  {
  }

  /** `CanCritical` is never consulted: changing it changes nothing else. */
  lemma CanCriticalNotConsulted(op: DamageView, expression: Option<string>, creator: Combatant, target: Combatant,
                                critRoll: bool, canCritical: bool)
    requires CritExact(op.source, creator, target, critRoll)
    ensures var r := BeforeDamageEffect(op, expression, creator, target, critRoll);
      var r2 := BeforeDamageEffect(op.(canCritical := canCritical), expression, creator, target, critRoll);
      r.Ok? == r2.Ok? &&
      (r.Ok? ==> r2.value == r.value.(canCritical := canCritical)) &&
      (r.Err? ==> r2.error == r.error)
  {
  }

  /** The operation object: its properties, the two combatants it links,
      and the calls it has made into them. */
  class DamageOperation {
    var DamageType: DamageType
    var DamageSource: DamageSource
    var Expression: Option<string>
    var DamageValue: Int32
    var IsCritical: bool
    var CanCritical: bool
    var Creator: Combatant
    var Target: Combatant
    var Trace: seq<DamageCall>

    /** An operation whose properties the caller has set, with no calls made yet. */
    constructor (damageType: DamageType, source: DamageSource, expression: Option<string>,
                 value: Int32, isCritical: bool, canCritical: bool, creator: Combatant, target: Combatant)
      ensures DamageType == damageType && DamageSource == source && Expression == expression
      ensures DamageValue == value && IsCritical == isCritical && CanCritical == canCritical
      ensures Creator == creator && Target == target && Trace == []
    {
      DamageType, DamageSource, Expression := damageType, source, expression;
      DamageValue, IsCritical, CanCritical := value, isCritical, canCritical;
      Creator, Target, Trace := creator, target, [];
    }

    /** What the combatants see of `this`. */
    function View(): DamageView
      reads this
    {
      DamageView(DamageSource, DamageType, DamageValue, IsCritical, CanCritical)
    }

    /** `BeforeDamage()`: computes the value in place.  A failing parse
        leaves every property as it was. */
    method BeforeDamage(critRoll: bool) returns (r: Result<(), ParseError>)
      requires CritExact(DamageSource, Creator, Target, critRoll)
      modifies this`DamageValue, this`IsCritical
      ensures var eff := BeforeDamageEffect(old(View()), Expression, Creator, Target, critRoll);
        (r.Ok? <==> eff.Ok?) &&
        (eff.Ok? ==> View() == eff.value) &&
        (eff.Err? ==> r.error == eff.error && View() == old(View()))
    {
      if DamageSource == Attack {
        IsCritical := critRoll;
        DamageValue := AttackBase(Creator.physicAttack, Target.physicDefense);
        if IsCritical {
          DamageValue := CriticalValue(DamageValue);
        }
      }
      if DamageSource == Skill {
        var parsed := ParseInt32(Expression);
        if parsed.Err? {
          return Err(parsed.error);
        }
        DamageValue := parsed.value;
      }
      r := Ok(());
    }

    /** `ApplyDamage()`: computes the value, hands the operation to the
        target, then lets both sides react.  A failing parse propagates
        before any call is made. */
    method ApplyDamage(critRoll: bool) returns (r: Result<(), ParseError>)
      requires CritExact(DamageSource, Creator, Target, critRoll)
      modifies this`DamageValue, this`IsCritical, this`Trace
      ensures var eff := BeforeDamageEffect(old(View()), Expression, Creator, Target, critRoll);
        (r.Ok? <==> eff.Ok?) &&
        (eff.Ok? ==> View() == eff.value && Trace == old(Trace) + DamageCalls(Creator.id, Target.id, eff.value)) &&
        (eff.Err? ==> r.error == eff.error && View() == old(View()) && Trace == old(Trace))
    {
      r := BeforeDamage(critRoll);
      if r.Err? {
        return;
      }
      Trace := Trace + [TargetReceiveDamage(Target.id, View())];
      AfterDamage();
    }

    /** `AfterDamage()`: the creator reacts to causing the damage, then the
        target to receiving it. */
    method AfterDamage()
      modifies this`Trace
      ensures Trace == old(Trace) + [TriggerAction(Creator.id, CauseDamage, View()),
                                     TriggerAction(Target.id, ReceiveDamage, View())]
    {
      Trace := Trace + [TriggerAction(Creator.id, CauseDamage, View())];
      Trace := Trace + [TriggerAction(Target.id, ReceiveDamage, View())];
    }
  }
}
