/** Item levels and item scoring of `CharacterAPI` (work/api.py): the level
    fallback of `get_item`, the value `calculate_item_value` gives an item
    against a monster, and the `item_better` comparison. The item catalogue
    and the character are remote; what they report comes in as inputs.
    Values are exact reals, so the `/ 10` of prospecting and wisdom has no
    rounding. */
module ItemScoring {
  import opened Wrappers

  // ---------------------------------------------------------------------
  // get_item

  /** The `craft` dict of a catalogue item, with its "level" entry (None
      when missing). */
  datatype Recipe = Recipe(level: Option<int>)

  /** One effect of an item: its code and `attributes["value"]`. */
  datatype Effect = Effect(code: string, value: int)

  /** An item as the catalogue reports it; `level` is None when the
      catalogue does not set it. */
  datatype CatalogItem = CatalogItem(code: string, level: Option<int>, craft: Option<Recipe>, effects: seq<Effect>)

  /** An item as `get_item` returns it, with its level filled in. */
  datatype GameItem = GameItem(code: string, level: int, effects: seq<Effect>)

  /** `get_item`: a positive level is kept, any other set level becomes 1;
      an unset level (the comparison `item.level > 0` raises) comes from
      the recipe (1 when the recipe has none), or is 20 for "old_boots",
      25 for "wooden_club" and 1 otherwise. */
  function GetItem(c: CatalogItem): (item: GameItem)
    ensures item.code == c.code && item.effects == c.effects
    ensures c.level.Some? ==> item.level == (if c.level.value > 0 then c.level.value else 1)
    ensures item.level >= 1 || (c.level.None? && c.craft.Some? && c.craft.value.level == Some(item.level))
    ensures c.level.None? && c.craft.Some? ==> item.level == c.craft.value.level.GetOr(1)
    ensures c.level.None? && c.craft.None? ==>
              item.level == (if c.code == "old_boots" then 20 else if c.code == "wooden_club" then 25 else 1)
  {
    var level :=
      match c.level
      case Some(l) => if l > 0 then l else 1
      case None =>
        if c.craft.Some? then c.craft.value.level.GetOr(1)
        else if c.code == "old_boots" then 20
        else if c.code == "wooden_club" then 25
        else 1;
    GameItem(c.code, level, c.effects)
  }

  // ---------------------------------------------------------------------
  // calculate_item_value

  /** The number of rounds a fight is assumed to last. */
  const ESTIMATED_ROUNDS: int := 7

  /** A dict from element name to value, in iteration order. */
  type Elements = seq<(string, int)>

  predicate DistinctKeys(d: Elements)
  {
    forall i, j | 0 <= i < j < |d| :: d[i].0 != d[j].0
  }

  /** `d.get(k)` on a dict with distinct keys. */
  function Lookup(d: Elements, k: string): (r: Option<int>)
    ensures r.None? <==> forall i | 0 <= i < |d| :: d[i].0 != k
    ensures r.Some? ==> exists i | 0 <= i < |d| :: d[i] == (k, r.value)
  {
    if |d| == 0 then None
    else if d[|d| - 1].0 == k then Some(d[|d| - 1].1)
    else Lookup(d[..|d| - 1], k)
  }

  /** `s.startswith(prefix)`. */
  predicate StartsWith(s: string, prefix: string)
  {
    |prefix| <= |s| && s[..|prefix|] == prefix
  }

  /** The text after `prefix` when `s` starts with it. */
  function After(s: string, prefix: string): (r: Option<string>)
    ensures r.Some? <==> StartsWith(s, prefix)
    ensures r.Some? ==> s == prefix + r.value
  {
    if StartsWith(s, prefix) then Some(s[|prefix|..]) else None
  }

  lemma AfterIsUnique(s: string, prefix: string, e: string)
    ensures s == prefix + e <==> After(s, prefix) == Some(e)
  {
    if s == prefix + e {
      assert s[..|prefix|] == prefix;
      assert s[|prefix|..] == e;
    }
  }

  /** The resistance loop: for each attack element with a positive value,
      `value * 7` when the effect is "res_" followed by that element. */
  function ResistanceValue(code: string, v: real, attack: Elements): real
  {
    if |attack| == 0 then 0.0
    else
      var (element, a) := attack[|attack| - 1];
      ResistanceValue(code, v, attack[..|attack| - 1]) +
      (if a > 0 && code == "res_" + element then v * ESTIMATED_ROUNDS as real else 0.0)
  }

  /** The effect names the attack loop matches for an element. */
  predicate AttacksElement(code: string, element: string)
  {
    code == "attack_" + element || code == "dmg_" + element || code == "boost_dmg_" + element
  }

  /** The attack loop: for each defence element the effect matches,
      `max(value - resistance, 0) * 7`, skipped when the weapon has attack
      elements and this is not one of them. */
  function AttackValue(code: string, v: int, defense: Elements, weapon: seq<string>): real
  {
    if |defense| == 0 then 0.0
    else
      var (element, d) := defense[|defense| - 1];
      AttackValue(code, v, defense[..|defense| - 1], weapon) +
      (if AttacksElement(code, element) && !(|weapon| > 0 && element !in weapon)
       then (Max(v - d, 0) * ESTIMATED_ROUNDS) as real else 0.0)
  }

  /** What one effect adds, following the source's chain of tests: the
      independent tests for hp, dmg, restore, prospecting and wisdom, then
      heal, else a resistance, else an attack effect. */
  function EffectValue(e: Effect, attack: Elements, defense: Elements, weapon: seq<string>): real
  {
    var v := e.value as real;
    var rounds := ESTIMATED_ROUNDS as real;
    (if e.code == "hp" then v else 0.0) +
    (if e.code == "dmg" then v * rounds * |weapon| as real else 0.0) +
    (if e.code == "restore" then v * rounds else 0.0) +
    (if e.code == "prospecting" then v / 10.0 else 0.0) +
    (if e.code == "wisdom" then v / 10.0 else 0.0) +
    (if e.code == "heal" then v * rounds
     else if StartsWith(e.code, "res_") then ResistanceValue(e.code, v, attack)
     else if StartsWith(e.code, "attack") || StartsWith(e.code, "dmg") || StartsWith(e.code, "boost_dmg_")
     then AttackValue(e.code, e.value, defense, weapon)
     else 0.0)
  }

  /** The element a resistance effect names ("res_fire" names "fire"). */
  function ResistedElement(code: string): Option<string>
  {
    After(code, "res_")
  }

  /** The element an attack effect names: the rest of the code after
      "attack_", "dmg_" or "boost_dmg_" (at most one of which applies). */
  function AttackedElement(code: string): Option<string>
  {
    var a, d := After(code, "attack_"), After(code, "dmg_");
    if a.Some? then a else if d.Some? then d else After(code, "boost_dmg_")
  }

  /** An attack effect matches exactly the element `AttackedElement` names:
      the three prefixes start with different letters. */
  lemma AttackedElementIsTheMatch(code: string, e: string)
    ensures AttacksElement(code, e) <==> AttackedElement(code) == Some(e)
  {
    AfterIsUnique(code, "attack_", e);
    AfterIsUnique(code, "dmg_", e);
    AfterIsUnique(code, "boost_dmg_", e);
    var a, d, b := After(code, "attack_"), After(code, "dmg_"), After(code, "boost_dmg_");
    assert a.Some? ==> code[0] == "attack_"[0];
    assert d.Some? ==> code[0] == "dmg_"[0];
    assert b.Some? ==> code[0] == "boost_dmg_"[0];
  }

  /** With distinct keys, the resistance loop adds `value * 7` at most once:
      when the effect resists an element whose attack value is positive. */
  lemma {:induction false} ResistanceValueClosedForm(code: string, v: real, attack: Elements)
    requires DistinctKeys(attack)
    ensures ResistanceValue(code, v, attack) ==
              match ResistedElement(code)
              case None => 0.0
              case Some(e) =>
                match Lookup(attack, e)
                case Some(a) => if a > 0 then v * ESTIMATED_ROUNDS as real else 0.0
                case None => 0.0
  {
    if |attack| > 0 {
      var front := attack[..|attack| - 1];
      var (element, a) := attack[|attack| - 1];
      assert DistinctKeys(front);
      ResistanceValueClosedForm(code, v, front);
      AfterIsUnique(code, "res_", element);
      if code == "res_" + element {
        assert Lookup(front, element).None?;
      }
    }
  }

  /** With distinct keys, the attack loop adds at most one term: for the
      element the effect names, when it has a resistance entry and the
      weapon does not rule it out. */
  lemma {:induction false} AttackValueClosedForm(code: string, v: int, defense: Elements, weapon: seq<string>)
    requires DistinctKeys(defense)
    ensures AttackValue(code, v, defense, weapon) ==
              match AttackedElement(code)
              case None => 0.0
              case Some(e) =>
                match Lookup(defense, e)
                case Some(d) =>
                  if |weapon| > 0 && e !in weapon then 0.0 else (Max(v - d, 0) * ESTIMATED_ROUNDS) as real
                case None => 0.0
  {
    if |defense| > 0 {
      var front := defense[..|defense| - 1];
      var (element, d) := defense[|defense| - 1];
      assert DistinctKeys(front);
      AttackValueClosedForm(code, v, front, weapon);
      AttackedElementIsTheMatch(code, element);
      if AttacksElement(code, element) {
        assert Lookup(front, element).None?;
      }
    }
  }

  /** What the effects named outright are worth, as the source's comments
      describe them: hp once, dmg per round per weapon element, restore and
      heal per round, prospecting and wisdom a tenth. */
  lemma EffectValueOfNamedKinds(e: Effect, attack: Elements, defense: Elements, weapon: seq<string>)
    ensures var v, value := e.value as real, EffectValue(e, attack, defense, weapon);
            (e.code == "hp" ==> value == v) &&
            (e.code == "dmg" ==> value == v * 7.0 * |weapon| as real) &&
            (e.code == "restore" || e.code == "heal" ==> value == v * 7.0) &&
            (e.code == "prospecting" || e.code == "wisdom" ==> value == v / 10.0)
  {
    var c := e.code;
    if c == "hp" {
      DiffersAt(c, "res_", 2); DiffersAt(c, "attack", 2); DiffersAt(c, "dmg", 2); DiffersAt(c, "boost_dmg_", 2);
    } else if c == "dmg" {
      DiffersAt(c, "res_", 3);
      AttackValueOfNoMatch(c, e.value, defense, weapon);
    } else if c == "restore" {
      DiffersAt(c, "res_", 3); DiffersAt(c, "attack", 0); DiffersAt(c, "dmg", 0); DiffersAt(c, "boost_dmg_", 0);
    } else if c == "prospecting" || c == "wisdom" {
      DiffersAt(c, "res_", 0); DiffersAt(c, "attack", 0); DiffersAt(c, "dmg", 0); DiffersAt(c, "boost_dmg_", 0);
    }
  }

  /** `s` does not start with `prefix` when they differ at position i. */
  lemma DiffersAt(s: string, prefix: string, i: nat)
    requires i < |prefix| && (i >= |s| || s[i] != prefix[i])
    ensures !StartsWith(s, prefix)
  {
    if |prefix| <= |s| {
      assert s[..|prefix|][i] == s[i];
    }
  }

  /** The attack loop adds nothing for an effect that names no element
      ("dmg" itself, say). */
  lemma {:induction false} AttackValueOfNoMatch(code: string, v: int, defense: Elements, weapon: seq<string>)
    requires AttackedElement(code).None?
    ensures AttackValue(code, v, defense, weapon) == 0.0
  {
    if |defense| > 0 {
      AttackValueOfNoMatch(code, v, defense[..|defense| - 1], weapon);
      AttackedElementIsTheMatch(code, defense[|defense| - 1].0);
    }
  }

  /** A resistance effect is worth `value * 7` when the monster attacks
      with that element (a positive attack value), and nothing otherwise. */
  lemma EffectValueOfResistance(e: Effect, attack: Elements, defense: Elements, weapon: seq<string>)
    requires DistinctKeys(attack)
    requires StartsWith(e.code, "res_")
    ensures var a := Lookup(attack, e.code[4..]);
            EffectValue(e, attack, defense, weapon) ==
              if a.Some? && a.value > 0 then e.value as real * 7.0 else 0.0
  {
    ResistanceValueClosedForm(e.code, e.value as real, attack);
    assert e.code[..4] == "res_";
    assert e.code[0] == 'r' && e.code[3] == '_';
  }

  /** An attack effect is worth `max(value - resistance, 0) * 7` for the
      element it names, when the monster has a resistance entry for it and
      the weapon's elements do not rule it out, and nothing otherwise. */
  lemma EffectValueOfAttack(e: Effect, attack: Elements, defense: Elements, weapon: seq<string>)
    requires DistinctKeys(defense)
    requires AttackedElement(e.code).Some?
    ensures var element := AttackedElement(e.code).value;
            var d := Lookup(defense, element);
            EffectValue(e, attack, defense, weapon) ==
              if d.None? || (|weapon| > 0 && element !in weapon) then 0.0
              else (Max(e.value - d.value, 0) * 7) as real
  {
    AttackValueClosedForm(e.code, e.value, defense, weapon);
    var element := AttackedElement(e.code).value;
    AttackedElementIsTheMatch(e.code, element);
    assert |e.code| >= 4 && (e.code[0] == 'a' || e.code[0] == 'd' || e.code[0] == 'b');
    DiffersAt(e.code, "res_", 0);
    assert StartsWith(e.code, "attack") || StartsWith(e.code, "dmg") || StartsWith(e.code, "boost_dmg_");
    EffectValueOfAttackKind(e, attack, defense, weapon);
  }

  /** An effect of none of the named kinds whose code starts like an attack
      effect takes the last branch of the chain: the attack loop. */
  lemma EffectValueOfAttackKind(e: Effect, attack: Elements, defense: Elements, weapon: seq<string>)
    requires e.code != "hp" && e.code != "dmg" && e.code != "restore"
    requires e.code != "prospecting" && e.code != "wisdom" && e.code != "heal"
    requires !StartsWith(e.code, "res_")
    requires StartsWith(e.code, "attack") || StartsWith(e.code, "dmg") || StartsWith(e.code, "boost_dmg_")
    ensures EffectValue(e, attack, defense, weapon) == AttackValue(e.code, e.value, defense, weapon)
  {
  }

  /** The value of an item: the sum over its effects. */
  function ItemValue(effects: seq<Effect>, attack: Elements, defense: Elements, weapon: seq<string>): real
  {
    if |effects| == 0 then 0.0
    else ItemValue(effects[..|effects| - 1], attack, defense, weapon) +
         EffectValue(effects[|effects| - 1], attack, defense, weapon)
  }

  /** `calculate_item_value`: the loop adding up what each effect is worth. */
  method CalculateItemValue(item: GameItem, attack: Elements, defense: Elements, weapon: seq<string>)
    returns (value: real)
    ensures value == ItemValue(item.effects, attack, defense, weapon)
  {
    value := 0.0;
    var i := 0;
    while i < |item.effects|
      invariant 0 <= i <= |item.effects|
      invariant value == ItemValue(item.effects[..i], attack, defense, weapon)
    {
      assert item.effects[..i + 1][..i] == item.effects[..i];
      value := value + EffectValue(item.effects[i], attack, defense, weapon);
      i := i + 1;
    }
    assert item.effects[..i] == item.effects;
  }

  /** An item with only hp effects is worth the sum of their values,
      whatever the monster. */
  lemma {:induction false} HpOnlyValue(effects: seq<Effect>, attack: Elements, defense: Elements, weapon: seq<string>)
    requires forall i | 0 <= i < |effects| :: effects[i].code == "hp"
    ensures ItemValue(effects, attack, defense, weapon) == HpTotal(effects) as real
  {
    if |effects| > 0 {
      HpOnlyValue(effects[..|effects| - 1], attack, defense, weapon);
      assert !StartsWith("hp", "res_") && !StartsWith("hp", "attack");
      assert !StartsWith("hp", "dmg") && !StartsWith("hp", "boost_dmg_");
    }
  }

  function HpTotal(effects: seq<Effect>): int
  {
    if |effects| == 0 then 0 else HpTotal(effects[..|effects| - 1]) + effects[|effects| - 1].value
  }

  // ---------------------------------------------------------------------
  // item_better

  /** The value of the current best item, 0 when there is none. */
  function BestTotal(best: Option<GameItem>, attack: Elements, defense: Elements, weapon: seq<string>): real
  {
    match best
    case None => 0.0
    case Some(b) => ItemValue(b.effects, attack, defense, weapon)
  }

  /** `item_better`: an item the character's level allows, worth more than
      the current best (or than nothing) and worth something. */
  function ItemBetter(best: Option<GameItem>, item: GameItem, charLevel: int,
                      attack: Elements, defense: Elements, weapon: seq<string>): (better: bool)
    ensures better ==> item.level <= charLevel
    ensures better ==> ItemValue(item.effects, attack, defense, weapon) > 0.0
    ensures better <==> item.level <= charLevel &&
                        ItemValue(item.effects, attack, defense, weapon) > BestTotal(best, attack, defense, weapon) &&
                        ItemValue(item.effects, attack, defense, weapon) > 0.0
  {
    if item.level > charLevel then false
    else
      var bestTotal := BestTotal(best, attack, defense, weapon);
      var newTotal := ItemValue(item.effects, attack, defense, weapon);
      newTotal > bestTotal && newTotal > 0.0
  }

  /** Of two items, at most one is better than the other, and no item is
      better than itself. */
  lemma ItemBetterIsStrict(a: GameItem, b: GameItem, charLevel: int,
                           attack: Elements, defense: Elements, weapon: seq<string>)
    ensures !(ItemBetter(Some(a), b, charLevel, attack, defense, weapon) &&
              ItemBetter(Some(b), a, charLevel, attack, defense, weapon))
    ensures !ItemBetter(Some(a), a, charLevel, attack, defense, weapon)
  {
  }
}
