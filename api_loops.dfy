/** The two action loops of `CharacterAPI` (work/api.py) that repeat a
    remote action until a count is reached: `gather` and `fight_drop`.
    Each remote answer is an element of a finite input sequence; None
    stands for an empty answer (for `gather`, also for a call that raised,
    which it catches). The cooldown waits, the eating and
    resting between fights and the move back after a loss are not
    modelled. */
module ActionLoops {
  import opened Wrappers

  /** How a loop ended: it returned `result`, or it would have called the
      server again after the last answer given. */
  datatype LoopExit = Returned(result: bool) | OutOfResponses

  // ---------------------------------------------------------------------
  // gather

  /** One entry of `details["items"]` in a gather answer, or of
      `fight["drops"]` in a fight answer. */
  datatype Drop = Drop(code: string, quantity: int)

  /** The items of the answers, in the order they were reported; a failed
      answer contributes nothing. */
  function Harvest(rs: seq<Option<seq<Drop>>>): seq<Drop>
  {
    if |rs| == 0 then [] else Harvest(rs[..|rs| - 1]) + rs[|rs| - 1].GetOr([])
  }

  /** The sum of the quantities of the items with code `c`. */
  function Tally(c: string, ds: seq<Drop>): int
  {
    if |ds| == 0 then 0
    else Tally(c, ds[..|ds| - 1]) + (if ds[|ds| - 1].code == c then ds[|ds| - 1].quantity else 0)
  }

  /** The quantity counted towards the target: only items whose code is
      that of the first item ever observed. */
  function Gathered(ds: seq<Drop>): int
  {
    if |ds| == 0 then 0 else Tally(ds[0].code, ds)
  }

  predicate Answered<T>(rs: seq<Option<T>>)
  {
    forall i | 0 <= i < |rs| :: rs[i].Some?
  }

  lemma TallyAppend(c: string, ds: seq<Drop>, d: Drop)
    ensures Tally(c, ds + [d]) == Tally(c, ds) + (if d.code == c then d.quantity else 0)
  {
    assert (ds + [d])[..|ds|] == ds;
  }

  lemma HarvestAppend(rs: seq<Option<seq<Drop>>>, r: Option<seq<Drop>>)
    ensures Harvest(rs + [r]) == Harvest(rs) + r.GetOr([])
  {
    assert (rs + [r])[..|rs|] == rs;
  }

  /** Once an item has been seen, the code that counts is fixed: later
      items count exactly when they carry that code. */
  lemma {:induction false} GatheredAppend(ds: seq<Drop>, more: seq<Drop>)
    requires |ds| > 0
    ensures Gathered(ds + more) == Gathered(ds) + Tally(ds[0].code, more)
    decreases |more|
  {
    if |more| == 0 {
      assert ds + more == ds;
    } else {
      var front, last := more[..|more| - 1], more[|more| - 1];
      GatheredAppend(ds, front);
      assert ds + more == (ds + front) + [last];
      assert more == front + [last];
      TallyAppend(ds[0].code, ds + front, last);
      TallyAppend(ds[0].code, front, last);
    }
  }

  /** `gather(target_quantity)`: asks for gather answers until the items
      with the first observed code add up to the target. It returns True as
      soon as the target is reached, False on a failed answer, and False
      without asking at all when the target is not positive. `used` is the
      number of answers consumed. */
  method Gather(target: int, responses: seq<Option<seq<Drop>>>) returns (exit: LoopExit, used: nat)
    ensures used <= |responses|
    ensures target <= 0 ==> exit == Returned(false) && used == 0
    ensures forall m | 0 <= m < used :: Gathered(Harvest(responses[..m])) < target
    ensures forall m | 0 <= m < used - 1 :: responses[m].Some?
    ensures exit == Returned(true) <==>
              used > 0 && responses[used - 1].Some? && Gathered(Harvest(responses[..used])) >= target
    ensures exit == Returned(false) ==> target <= 0 || (used > 0 && responses[used - 1].None?)
    ensures exit == OutOfResponses ==>
              used == |responses| && Answered(responses) && Gathered(Harvest(responses)) < target
  {
    var first: Option<string> := None;
    var gathered := 0;
    used := 0;
    while gathered < target
      invariant used <= |responses|
      invariant Answered(responses[..used])
      invariant forall m | 0 <= m < used :: Gathered(Harvest(responses[..m])) < target
      invariant gathered == Gathered(Harvest(responses[..used]))
      invariant first.None? <==> |Harvest(responses[..used])| == 0
      invariant first.Some? ==> first.value == Harvest(responses[..used])[0].code
      invariant used > 0 ==> gathered < target
      decreases |responses| - used
    {
      if used == |responses| {
        assert responses[..used] == responses;
        return OutOfResponses, used;
      }
      var response := responses[used];
      ghost var before := Harvest(responses[..used]);
      StillShort(responses, target, used);
      AnsweredUpTo(responses, used);
      HarvestStep(responses, used);
      if response.None? {
        return Returned(false), used + 1;
      }
      first, gathered := CountItems(before, first, gathered, response.value);
      used := used + 1;
      if gathered >= target {
        return Returned(true), used;
      }
    }
    exit := Returned(false);
  }

  /** The goal is still short after `n` answers as well as before. */
  lemma StillShort(responses: seq<Option<seq<Drop>>>, target: int, n: nat)
    requires n <= |responses|
    requires forall m | 0 <= m < n :: Gathered(Harvest(responses[..m])) < target
    requires Gathered(Harvest(responses[..n])) < target
    ensures forall m | 0 <= m < n + 1 :: Gathered(Harvest(responses[..m])) < target
  {
  }

  /** The first `n` answers were all given, and with answer `n` given too
      so were the first `n + 1`. */
  lemma AnsweredUpTo(responses: seq<Option<seq<Drop>>>, n: nat)
    requires n < |responses|
    requires Answered(responses[..n])
    ensures forall m | 0 <= m < n :: responses[m].Some?
    ensures responses[n].Some? ==> Answered(responses[..n + 1])
  {
    assert forall m | 0 <= m < n :: responses[..n][m] == responses[m];
    assert forall m | 0 <= m < n + 1 :: responses[..n + 1][m] == responses[m];
  }

  /** Answer `n` adds its items after those of the earlier answers. */
  lemma HarvestStep(responses: seq<Option<seq<Drop>>>, n: nat)
    requires n < |responses|
    ensures Harvest(responses[..n + 1]) == Harvest(responses[..n]) + responses[n].GetOr([])
  {
    assert responses[..n + 1] == responses[..n] + [responses[n]];
    HarvestAppend(responses[..n], responses[n]);
  }

  /** The inner loop of `gather` over the items of one answer: the first
      code is set by the first item ever seen, and each item with that code
      adds its quantity. `before` is what earlier answers reported. */
  method CountItems(ghost before: seq<Drop>, first: Option<string>, gathered: int, items: seq<Drop>)
    returns (first': Option<string>, gathered': int)
    requires first.None? <==> |before| == 0
    requires first.Some? ==> first.value == before[0].code
    requires gathered == Gathered(before)
    ensures first'.None? <==> |before + items| == 0
    ensures first'.Some? ==> first'.value == (before + items)[0].code
    ensures gathered' == Gathered(before + items)
  {
    first', gathered' := first, gathered;
    assert before + items[..0] == before;
    var i := 0;
    while i < |items|
      invariant 0 <= i <= |items|
      invariant first'.None? <==> |before + items[..i]| == 0
      invariant first'.Some? ==> first'.value == (before + items[..i])[0].code
      invariant gathered' == Gathered(before + items[..i])
    {
      var item := items[i];
      assert before + items[..i + 1] == (before + items[..i]) + [item];
      if first'.None? {
        first' := Some(item.code);
      }
      if item.code == first'.value {
        gathered' := gathered' + item.quantity;
      }
      GatheredStep(before + items[..i], item);
      i := i + 1;
    }
    assert items[..i] == items;
  }

  /** One item more: the count grows by its quantity exactly when it has
      the first code (its own code when it is the first item). */
  lemma GatheredStep(ds: seq<Drop>, d: Drop)
    ensures |ds + [d]| > 0 && (ds + [d])[0].code == (if |ds| == 0 then d.code else ds[0].code)
    ensures Gathered(ds + [d]) ==
              Gathered(ds) + (if d.code == (ds + [d])[0].code then d.quantity else 0)
  {
    TallyAppend((ds + [d])[0].code, ds, d);
  }

  // ---------------------------------------------------------------------
  // fight_drop

  /** A fight answer: whether the result was "loss", and the drops. */
  datatype Fight = Fight(lost: bool, drops: seq<Drop>)

  /** The maximum number of losses `fight_drop` accepts. */
  const LOSS_LIMIT: nat := 3

  /** The total collected over the fights answered so far: the `Tally` of
      each fight's drops. */
  function Collected(code: string, rs: seq<Option<Fight>>): int
  {
    if |rs| == 0 then 0
    else Collected(code, rs[..|rs| - 1]) +
         (match rs[|rs| - 1] case Some(f) => Tally(code, f.drops) case None => 0)
  }

  /** The losses over the fights answered so far. */
  function Losses(rs: seq<Option<Fight>>): nat
  {
    if |rs| == 0 then 0
    else Losses(rs[..|rs| - 1]) + (if rs[|rs| - 1].Some? && rs[|rs| - 1].value.lost then 1 else 0)
  }

  /** The loop condition of `fight_drop` no longer holds. */
  predicate FightsOver(quantity: int, code: string, rs: seq<Option<Fight>>)
  {
    Collected(code, rs) >= quantity || Losses(rs) >= LOSS_LIMIT
  }

  /** The loss counter is never reset by a win: losses over two stretches of
      fights add up. */
  lemma {:induction false} LossesAdd(a: seq<Option<Fight>>, b: seq<Option<Fight>>)
    ensures Losses(a + b) == Losses(a) + Losses(b)
    decreases |b|
  {
    if |b| == 0 {
      assert a + b == a;
    } else {
      LossesAdd(a, b[..|b| - 1]);
      assert (a + b)[..|a + b| - 1] == a + b[..|b| - 1];
    }
  }

  /** The losses never exceed the number of fights. */
  lemma {:induction false} LossesAtMostFights(rs: seq<Option<Fight>>)
    ensures Losses(rs) <= |rs|
  {
    if |rs| > 0 {
      LossesAtMostFights(rs[..|rs| - 1]);
    }
  }

  /** Three losses end the loop with False even when the third loss came
      with the last drop needed. */
  lemma ThirdLossFailsDespiteDrop()
    ensures var rs := [Some(Fight(true, [])), Some(Fight(true, [])),
                       Some(Fight(true, [Drop("egg", 1)]))];
            Collected("egg", rs) >= 1 && Losses(rs) == LOSS_LIMIT &&
            !FightsOver(1, "egg", rs[..2]) && FightsOver(1, "egg", rs)
  {
    var rs := [Some(Fight(true, [])), Some(Fight(true, [])),
               Some(Fight(true, [Drop("egg", 1)]))];
    assert rs[..1][..0] == [];
    assert Losses(rs[..1]) == 1 && Collected("egg", rs[..1]) == 0;
    assert rs[..2][..1] == rs[..1];
    assert Losses(rs[..2]) == 2 && Collected("egg", rs[..2]) == 0;
    assert rs[..2] == rs[..|rs| - 1];
    assert [Drop("egg", 1)][..0] == [];
    assert Tally("egg", [Drop("egg", 1)]) == 1;
    assert Losses(rs) == 3 && Collected("egg", rs) == 1;
  }

  /** `fight_drop(quantity, item_code)`: fights until the drops with
      `code` add up to `quantity` or three fights in total were lost, and
      returns whether fewer than three were lost; an empty answer returns
      False at once. */
  method FightDrop(quantity: int, code: string, responses: seq<Option<Fight>>)
    returns (exit: LoopExit, used: nat)
    ensures used <= |responses|
    ensures quantity <= 0 ==> exit == Returned(true) && used == 0
    ensures forall m | 0 <= m < used :: !FightsOver(quantity, code, responses[..m])
    ensures forall m | 0 <= m < used - 1 :: responses[m].Some?
    ensures exit.Returned? && used > 0 && responses[used - 1].None? ==> exit == Returned(false)
    ensures exit.Returned? && (used == 0 || responses[used - 1].Some?) ==>
              FightsOver(quantity, code, responses[..used]) &&
              exit.result == (Losses(responses[..used]) < LOSS_LIMIT)
    ensures exit == OutOfResponses ==>
              used == |responses| && Answered(responses) && !FightsOver(quantity, code, responses)
  {
    var total := 0;
    var losses := 0;
    used := 0;
    while total < quantity && losses < LOSS_LIMIT
      invariant used <= |responses|
      invariant Answered(responses[..used])
      invariant forall m | 0 <= m < used :: !FightsOver(quantity, code, responses[..m])
      invariant total == Collected(code, responses[..used])
      invariant losses == Losses(responses[..used])
      decreases |responses| - used
    {
      if used == |responses| {
        assert responses[..used] == responses;
        return OutOfResponses, used;
      }
      var response := responses[used];
      assert responses[..used + 1] == responses[..used] + [response];
      assert (responses[..used] + [response])[..used] == responses[..used];
      if response.None? {
        return Returned(false), used + 1;
      }
      var fight := response.value;
      if fight.lost {
        losses := losses + 1;
      }
      var i := 0;
      while i < |fight.drops|
        invariant 0 <= i <= |fight.drops|
        invariant total == Collected(code, responses[..used]) + Tally(code, fight.drops[..i])
      {
        var drop := fight.drops[i];
        assert fight.drops[..i + 1][..i] == fight.drops[..i];
        if drop.code == code {
          total := total + drop.quantity;
        }
        i := i + 1;
      }
      assert fight.drops[..i] == fight.drops;
      used := used + 1;
    }
    exit := Returned(losses < LOSS_LIMIT);
  }
}
