/** Hunger, rest and mood: their decay over time, eating, mental breaks and
    resting (colony-mvp/src/needs.js). */
module PawnNeeds {
  import opened Constants
  import opened Entity

  function Max(a: real, b: real): real
  {
    if a >= b then a else b
  }

  function Min(a: real, b: real): real
  {
    if a <= b then a else b
  }

  /** How much faster hunger falls in a heatwave. */
  function HungerFactor(w: Weather): real
  {
    if w == Heatwave then 1.4 else 1.0
  }

  /** How much slower rest falls in the rain. */
  function RestFactor(w: Weather): real
  {
    if w == Rain then 0.9 else 1.0
  }

  /** The change in mood over `minutes`, given the hunger and rest the pawn
      has after this update's decay. */
  function MoodDelta(hunger: real, rest: real, minutes: real, w: Weather): real
  {
    MOOD_RECOVERY_PER_MIN * minutes
    - (if hunger < 30.0 then 12.0 * minutes else 0.0)
    - (if rest < 30.0 then 10.0 * minutes else 0.0)
    - (if w == Rain then 3.0 * minutes else 0.0)
  }

  /** Needs after `minutes` of decay: hunger and rest fall, floored at zero,
      and mood moves by MoodDelta, clamped to [0, 100]. */
  function UpdateNeeds(n: Needs, minutes: real, w: Weather): (r: Needs)
    ensures r.hunger >= 0.0 && r.rest >= 0.0
    ensures 0.0 <= r.mood <= 100.0
    ensures minutes >= 0.0 && n.hunger >= 0.0 ==> r.hunger <= n.hunger
    ensures minutes >= 0.0 && n.rest >= 0.0 ==> r.rest <= n.rest
    ensures r.breakdownUntil == n.breakdownUntil
  {
    var hunger := Max(0.0, n.hunger - HUNGER_DECAY_PER_MIN * minutes * HungerFactor(w));
    var rest := Max(0.0, n.rest - REST_DECAY_PER_MIN * minutes * RestFactor(w));
    var mood := Max(0.0, Min(100.0, n.mood + MoodDelta(hunger, rest, minutes, w)));
    n.(hunger := hunger, rest := rest, mood := mood)
  }

  /** Hunger falls 12 per minute, 1.4 times as fast in a heatwave; rest falls
      10 per minute, 0.9 times as fast in the rain; the other weathers leave
      the rates alone. */
  lemma WeatherRates(n: Needs, m: real)
    ensures UpdateNeeds(n, m, Clear).hunger == Max(0.0, n.hunger - 12.0 * m)
    ensures UpdateNeeds(n, m, Rain).hunger == Max(0.0, n.hunger - 12.0 * m)
    ensures UpdateNeeds(n, m, Heatwave).hunger == Max(0.0, n.hunger - 16.8 * m)
    ensures UpdateNeeds(n, m, Clear).rest == Max(0.0, n.rest - 10.0 * m)
    ensures UpdateNeeds(n, m, Heatwave).rest == Max(0.0, n.rest - 10.0 * m)
    ensures UpdateNeeds(n, m, Rain).rest == Max(0.0, n.rest - 9.0 * m)
  {
  }

  /** The hunger penalty looks at hunger after its decay. Two pawns that
      differ only in hunger get the same mood when their decayed hunger lies
      on the same side of 30, however far apart they started; when one ends
      below 30 and the other not, and neither mood is clamped, the first
      loses exactly 12 more per minute. */
  lemma PenaltyAfterDecay(a: Needs, b: Needs, m: real, w: Weather)
    requires m >= 0.0 && a == b.(hunger := a.hunger)
    ensures var ra, rb := UpdateNeeds(a, m, w), UpdateNeeds(b, m, w);
      (ra.hunger < 30.0 <==> rb.hunger < 30.0) ==> ra.mood == rb.mood
    ensures var ra, rb := UpdateNeeds(a, m, w), UpdateNeeds(b, m, w);
      && ra.hunger < 30.0 <= rb.hunger
      && 0.0 <= a.mood + MoodDelta(ra.hunger, ra.rest, m, w) <= 100.0
      && 0.0 <= b.mood + MoodDelta(rb.hunger, rb.rest, m, w) <= 100.0
      ==> ra.mood == rb.mood - 12.0 * m
  {
  }

  /** The rest penalty likewise looks at rest after its decay, and costs
      exactly 10 per minute. */
  lemma RestPenaltyAfterDecay(a: Needs, b: Needs, m: real, w: Weather)
    requires m >= 0.0 && a == b.(rest := a.rest)
    ensures var ra, rb := UpdateNeeds(a, m, w), UpdateNeeds(b, m, w);
      (ra.rest < 30.0 <==> rb.rest < 30.0) ==> ra.mood == rb.mood
    ensures var ra, rb := UpdateNeeds(a, m, w), UpdateNeeds(b, m, w);
      && ra.rest < 30.0 <= rb.rest
      && 0.0 <= a.mood + MoodDelta(ra.hunger, ra.rest, m, w) <= 100.0
      && 0.0 <= b.mood + MoodDelta(rb.hunger, rb.rest, m, w) <= 100.0
      ==> ra.mood == rb.mood - 10.0 * m
  {
  }

  /** Mood recovers 8 per minute: with decayed hunger and rest both at
      least 30, no rain and no clamp, that is the whole change. */
  lemma BaseMoodRecovery(n: Needs, m: real, w: Weather)
    requires w != Rain
    requires UpdateNeeds(n, m, w).hunger >= 30.0 && UpdateNeeds(n, m, w).rest >= 30.0
    requires 0.0 <= n.mood + 8.0 * m <= 100.0
    ensures UpdateNeeds(n, m, w).mood == n.mood + 8.0 * m
  {
  }

  /** Rain costs 3 mood per minute on top of the other terms, as long as the
      mood stays inside [0, 100]. */
  lemma RainMood(n: Needs, m: real)
    requires m >= 0.0
    requires n.rest - 10.0 * m >= 30.0 || n.rest - 9.0 * m < 30.0
    requires var clear := UpdateNeeds(n, m, Clear);
      0.0 <= n.mood + MoodDelta(clear.hunger, clear.rest, m, Rain) && n.mood + MoodDelta(clear.hunger, clear.rest, m, Clear) <= 100.0
    ensures UpdateNeeds(n, m, Rain).mood == UpdateNeeds(n, m, Clear).mood - 3.0 * m
  {
  }

  /** With no time elapsed, needs already in range are left as they are. */
  lemma NoTimeNoChange(n: Needs, w: Weather)
    requires n.hunger >= 0.0 && n.rest >= 0.0 && 0.0 <= n.mood <= 100.0
    ensures UpdateNeeds(n, 0.0, w) == n
  {
  }

  /** Eating one ration: succeeds exactly when the pawn carries food and is
      not sated (hunger below 70); it then takes one unit of food, raises
      hunger by 30 and mood by 3, each capped at 100. Otherwise the pawn is
      returned unchanged. */
  function TryConsumeFood(p: Pawn): (r: (bool, Pawn))
    ensures r.0 <==> p.inventory.food > 0.0 && p.needs.hunger < 70.0
    ensures !r.0 ==> r.1 == p
    ensures r.0 ==> && r.1 == p.(inventory := r.1.inventory, needs := r.1.needs)
                    && r.1.inventory == p.inventory.(food := p.inventory.food - 1.0)
                    && r.1.needs == p.needs.(hunger := r.1.needs.hunger, mood := r.1.needs.mood)
                    && r.1.needs.hunger == Min(100.0, p.needs.hunger + HUNGER_EAT_AMOUNT)
                    && r.1.needs.mood == Min(100.0, p.needs.mood + 3.0)
                    && r.1.needs.hunger > p.needs.hunger
  {
    if p.inventory.food > 0.0 && p.needs.hunger < 70.0 then
      (true, p.(inventory := p.inventory.(food := p.inventory.food - 1.0),
                needs := p.needs.(hunger := Min(100.0, p.needs.hunger + HUNGER_EAT_AMOUNT),
                                  mood := Min(100.0, p.needs.mood + 3.0))))
    else
      (false, p)
  }

  /** A whole ration is taken even from a fraction of one: a hungry pawn
      carrying less than one unit eats and ends with a negative food count. */
  lemma FractionalRation(p: Pawn)
    requires 0.0 < p.inventory.food < 1.0 && p.needs.hunger < 70.0
    ensures TryConsumeFood(p).0 && TryConsumeFood(p).1.inventory.food < 0.0
    ensures TryConsumeFood(p).1.inventory.food == p.inventory.food - 1.0
  {
  }

  /** The breakdown latch at simulated minute `now`. A break already running
      reports true with nothing changed; otherwise a mood at or below 15
      starts a four-minute break; otherwise it reports false. */
  function IsBreakingDown(n: Needs, now: real): (r: (bool, Needs))
    ensures r.1 == n.(breakdownUntil := r.1.breakdownUntil)
    ensures r.0 <==> n.breakdownUntil > now || n.mood <= MOOD_BREAKDOWN_THRESHOLD
    ensures r.1.breakdownUntil == if n.breakdownUntil <= now && n.mood <= MOOD_BREAKDOWN_THRESHOLD
                                  then now + 4.0 else n.breakdownUntil
  {
    if n.breakdownUntil > now then (true, n)
    else if n.mood <= MOOD_BREAKDOWN_THRESHOLD then (true, n.(breakdownUntil := now + 4.0))
    else (false, n)
  }

  /** Once a break starts it holds, unchanged, for the next four minutes
      whatever the mood does meanwhile. */
  lemma BreakdownLatches(n: Needs, now: real, later: real, mood: real)
    requires IsBreakingDown(n, now).0 && n.breakdownUntil <= now
    requires now <= later < now + 4.0
    ensures var m := IsBreakingDown(n, now).1.(mood := mood);
      IsBreakingDown(m, later) == (true, m)
  {
  }

  /** Resting for `minutes`: rest rises by 20 per minute, 1.6 times as fast
      in a shelter, and mood by 2 per minute, both capped at 100; hunger
      and the break deadline are untouched. */
  function RestRecovery(n: Needs, minutes: real, hasShelter: bool): (r: Needs)
    ensures r == n.(rest := r.rest, mood := r.mood)
    ensures r.mood == Min(100.0, n.mood + 2.0 * minutes)
    ensures r.rest <= 100.0 && r.mood <= 100.0
    ensures minutes >= 0.0 ==> r.rest >= Min(n.rest, 100.0) && r.mood >= Min(n.mood, 100.0)
  {
    var rate := REST_RECOVERY_RATE * (if hasShelter then 1.6 else 1.0);
    n.(rest := Min(100.0, n.rest + rate * minutes),
       mood := Min(100.0, n.mood + 2.0 * minutes))
  }

  /** A shelter gives 32 rest per minute instead of 20. */
  lemma ShelterRate(n: Needs, m: real)
    ensures RestRecovery(n, m, true).rest == Min(100.0, n.rest + 32.0 * m)
    ensures RestRecovery(n, m, false).rest == Min(100.0, n.rest + 20.0 * m)
    ensures m >= 0.0 ==> RestRecovery(n, m, true).rest >= RestRecovery(n, m, false).rest
  {
  }
}
