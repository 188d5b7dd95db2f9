/** `equip_utility` of `CharacterAPI` (work/api.py): choosing one of the two
    utility slots for a consumable and sizing what is equipped from each
    inventory stack. The character's slots and inventory come in as inputs;
    the equip calls are returned as the quantities requested, whether or
    not the server accepts them. */
module Equipment {
  import opened Wrappers

  datatype Slot = Utility1 | Utility2

  /** A utility slot: the code it holds ("" when empty) and how many. */
  datatype UtilitySlot = UtilitySlot(code: string, quantity: int)

  /** One inventory stack. */
  datatype Stack = Stack(code: string, quantity: int)

  /** The most a utility slot holds. */
  const SLOT_CAPACITY: int := 100

  /** A slot can take `code` when it already holds it or is empty. */
  predicate Accepts(s: UtilitySlot, code: string)
  {
    s.code == code || s.code == ""
  }

  /** The slot chosen and the quantity already in it: utility1 if it
      accepts the code, else utility2 if it does, else none. */
  function ChooseSlot(code: string, u1: UtilitySlot, u2: UtilitySlot): (r: Option<(Slot, int)>)
    ensures r == Some((Utility1, u1.quantity)) <==> Accepts(u1, code)
    ensures r == Some((Utility2, u2.quantity)) <==> !Accepts(u1, code) && Accepts(u2, code)
    ensures r.None? <==> !Accepts(u1, code) && !Accepts(u2, code)
  {
    if Accepts(u1, code) then Some((Utility1, u1.quantity))
    else if Accepts(u2, code) then Some((Utility2, u2.quantity))
    else None
  }

  /** The quantities equipped from the stacks, in inventory order: each
      stack with the code is capped at the room left by the quantity found
      in the slot at the start; a computed 0 ends the loop. */
  function EquipQuantities(code: string, existing: int, stacks: seq<Stack>): seq<int>
  {
    if |stacks| == 0 then []
    else if stacks[0].code != code then EquipQuantities(code, existing, stacks[1..])
    else
      var q := Min(stacks[0].quantity, SLOT_CAPACITY - existing);
      if q == 0 then [] else [q] + EquipQuantities(code, existing, stacks[1..])
  }

  /** `q` is what some stack with the code gives: its quantity capped at
      the room left. */
  predicate FromStack(code: string, existing: int, stacks: seq<Stack>, q: int)
  {
    exists k | 0 <= k < |stacks| :: stacks[k].code == code && q == Min(stacks[k].quantity, SLOT_CAPACITY - existing)
  }

  /** Every equip call requests a non-zero quantity that fits the room
      left in the slot, and is what one of the stacks gives. */
  lemma {:induction false} EquipQuantitiesFit(code: string, existing: int, stacks: seq<Stack>)
    ensures forall q | q in EquipQuantities(code, existing, stacks) ::
              q != 0 && existing + q <= SLOT_CAPACITY && FromStack(code, existing, stacks, q)
  {
    if |stacks| > 0 {
      var tail := stacks[1..];
      EquipQuantitiesFit(code, existing, tail);
      forall q | FromStack(code, existing, tail, q)
        ensures FromStack(code, existing, stacks, q)
      {
        var k :| 0 <= k < |tail| && tail[k].code == code && q == Min(tail[k].quantity, SLOT_CAPACITY - existing);
        assert stacks[k + 1] == tail[k];
      }
      if stacks[0].code == code {
        assert FromStack(code, existing, stacks, Min(stacks[0].quantity, SLOT_CAPACITY - existing));
      }
    }
  }

  /** The room is taken from the slot as it was before the loop, so two
      stacks of the same code can together request more than the slot
      holds: 60 and 60 into an empty slot. */
  lemma TwoStacksOverfill()
    ensures var qs := EquipQuantities("potion", 0, [Stack("potion", 60), Stack("potion", 60)]);
            qs == [60, 60] && qs[0] + qs[1] > SLOT_CAPACITY
  {
    var stacks := [Stack("potion", 60), Stack("potion", 60)];
    assert stacks[1..][1..] == [];
    assert EquipQuantities("potion", 0, stacks[1..]) == [60];
  }

  /** `equip_utility(code)`: the slot chosen (None when neither accepts
      the code, and nothing is equipped) and the quantity of each equip
      call in order. */
  method EquipUtility(code: string, u1: UtilitySlot, u2: UtilitySlot, inventory: seq<Stack>)
    returns (slot: Option<Slot>, quantities: seq<int>)
    ensures slot.None? <==> ChooseSlot(code, u1, u2).None?
    ensures slot.None? ==> quantities == []
    ensures slot.Some? ==>
              slot.value == ChooseSlot(code, u1, u2).value.0 &&
              quantities == EquipQuantities(code, ChooseSlot(code, u1, u2).value.1, inventory)
    ensures slot.Some? ==>
              forall q | q in quantities :: q != 0 && ChooseSlot(code, u1, u2).value.1 + q <= SLOT_CAPACITY
  {
    var choice := ChooseSlot(code, u1, u2);
    if choice.None? {
      return None, [];
    }
    var existing := choice.value.1;
    slot := Some(choice.value.0);
    EquipQuantitiesFit(code, existing, inventory);
    quantities := EquipFrom(code, existing, inventory);
  }

  /** The loop of `equip_utility` over the inventory, with the quantity
      found in the chosen slot before it. */
  method EquipFrom(code: string, existing: int, inventory: seq<Stack>) returns (quantities: seq<int>)
    ensures quantities == EquipQuantities(code, existing, inventory)
  {
    quantities := [];
    var i := 0;
    while i < |inventory|
      invariant 0 <= i <= |inventory|
      invariant quantities + EquipQuantities(code, existing, inventory[i..]) ==
                EquipQuantities(code, existing, inventory)
    {
      var item := inventory[i];
      EquipStep(code, existing, inventory, i);
      if item.code == code {
        var maxEquip := SLOT_CAPACITY - existing;
        var equipQuantity := Min(item.quantity, maxEquip);
        if equipQuantity == 0 {
          return;
        }
        quantities := quantities + [equipQuantity];
      }
      i := i + 1;
    }
  }

  /** One stack more: what `EquipQuantities` does with stack `i`. */
  lemma EquipStep(code: string, existing: int, stacks: seq<Stack>, i: nat)
    requires i < |stacks|
    ensures var q := Min(stacks[i].quantity, SLOT_CAPACITY - existing);
            var rest := EquipQuantities(code, existing, stacks[i + 1..]);
            EquipQuantities(code, existing, stacks[i..]) ==
              if stacks[i].code != code then rest else if q == 0 then [] else [q] + rest
  {
    assert stacks[i..][0] == stacks[i];
    assert stacks[i..][1..] == stacks[i + 1..];
  }
}
