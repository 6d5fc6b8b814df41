/** The event scheduler: raids, weather shifts and animals going mad
    (colony-mvp/src/events.js). Every Math.random() call is a parameter. */
module Events {
  import opened Constants
  import opened Utils
  import opened Entity
  import opened Colony

  /** The draws one firing of the scheduler may use: the event roll, the
      raid side, the weather coin, the pick of the mad animal, the next
      delay, and one draw per spawned raider for its place along the side. */
  datatype EventDraws = EventDraws(roll: real, edge: real, coin: real, pick: real, timer: real, along: nat -> real)

  ghost predicate ValidEventDraws(e: EventDraws)
  {
    IsDraw(e.roll) && IsDraw(e.edge) && IsDraw(e.coin) && IsDraw(e.pick) && IsDraw(e.timer)
    && forall k: nat :: IsDraw(e.along(k))
  }

  /** The side picked from ['left', 'right', 'top', 'bottom'] by a draw. */
  function EdgeOf(r: real): (edge: Edge)
    requires IsDraw(r)
    ensures edge == Left <==> r < 0.25
    ensures edge == Right <==> 0.25 <= r < 0.5
    ensures edge == Top <==> 0.5 <= r < 0.75
    ensures edge == Bottom <==> r >= 0.75
  {
    var i := (r * 4.0).Floor;
    if i == 0 then Left else if i == 1 then Right else if i == 2 then Top else Bottom
  }

  /** The weather after a weather event: clear weather turns to rain or a
      heatwave, a coin deciding which; any other weather clears up. */
  function NextWeather(w: Weather, coin: real): (w': Weather)
    ensures w' == Clear <==> w != Clear
    ensures w == Clear ==> (w' == Rain <==> coin < 0.5)
  {
    if w == Clear then (if coin < 0.5 then Rain else Heatwave) else Clear
  }

  /** A raid brings one raider plus one for every two colonists, dead ones included. */
  function RaidSize(colonists: nat): (n: nat)
    ensures n >= 1 && 2 * n > colonists && 2 * n <= colonists + 2
  {
    1 + colonists / 2
  }

  /** The indices of the living pawns, in order (the filter on hp > 0). */
  function LivingIndices(ps: seq<Pawn>): seq<nat>
  {
    if |ps| == 0 then []
    else LivingIndices(ps[..|ps| - 1]) + (if Alive(ps[|ps| - 1]) then [|ps| - 1] else [])
  }

  /** The filter keeps exactly the living pawns' indices, in increasing order. */
  lemma LivingIndicesSpec(ps: seq<Pawn>)
    ensures var r := LivingIndices(ps);
      && (forall k :: 0 <= k < |r| ==> r[k] < |ps| && Alive(ps[r[k]]))
      && (forall k :: 0 <= k < |ps| && Alive(ps[k]) ==> k in r)
      && (forall j, k :: 0 <= j < k < |r| ==> r[j] < r[k])
  {
    LivingIndicesSound(ps);
    LivingIndicesComplete(ps);
    LivingIndicesSorted(ps);
  }

  /** Every index the filter keeps is that of a living pawn. */
  lemma {:induction false} LivingIndicesSound(ps: seq<Pawn>)
    ensures forall k :: 0 <= k < |LivingIndices(ps)| ==> LivingIndices(ps)[k] < |ps| && Alive(ps[LivingIndices(ps)[k]])
  {
    if |ps| > 0 {
      var last := |ps| - 1;
      var init := ps[..last];
      LivingIndicesSound(init);
      var r0 := LivingIndices(init);
      assert forall i :: 0 <= i < |init| ==> init[i] == ps[i];
    }
  }

  /** Every living pawn's index is kept. */
  lemma {:induction false} LivingIndicesComplete(ps: seq<Pawn>)
    ensures forall k :: 0 <= k < |ps| && Alive(ps[k]) ==> k in LivingIndices(ps)
  {
    if |ps| > 0 {
      var last := |ps| - 1;
      var init := ps[..last];
      LivingIndicesComplete(init);
      assert forall i :: 0 <= i < |init| ==> init[i] == ps[i];
    }
  }

  /** The kept indices increase. */
  lemma {:induction false} LivingIndicesSorted(ps: seq<Pawn>)
    ensures forall j, k :: 0 <= j < k < |LivingIndices(ps)| ==> LivingIndices(ps)[j] < LivingIndices(ps)[k]
  {
    if |ps| > 0 {
      var last := |ps| - 1;
      var init := ps[..last];
      LivingIndicesSorted(init);
      LivingIndicesSound(init);
      var r0 := LivingIndices(init);
      var r := LivingIndices(ps);
      assert r == r0 + if Alive(ps[last]) then [last] else [];
      forall j, k | 0 <= j < k < |r|
        ensures r[j] < r[k]
      {
        if k >= |r0| {
          assert r[k] == last && r[j] == r0[j];
        }
      }
    }
  }

  lemma {:induction false} NoneLiving(ps: seq<Pawn>)
    requires forall k :: 0 <= k < |ps| ==> !Alive(ps[k])
    ensures LivingIndices(ps) == []
  {
    if |ps| > 0 {
      var init := ps[..|ps| - 1];
      assert forall k :: 0 <= k < |init| ==> init[k] == ps[k];
      NoneLiving(init);
    }
  }

  /** Math.floor(r * n): the position a draw picks among n candidates. */
  function Pick(n: nat, r: real): (i: int)
    ensures n > 0 && IsDraw(r) ==> 0 <= i < n
  {
    assert n > 0 && IsDraw(r) ==> 0.0 <= r * n as real < n as real by {
      if n > 0 && IsDraw(r) {
        assert r * n as real < 1.0 * n as real;
      }
    }
    (r * n as real).Floor
  }

  /** The animals after the mad-animal event: the living animal at the
      drawn position among the living ones turns hostile; with none alive
      nothing happens. */
  function MadAnimals(animals: seq<Pawn>, pick: real): (r: seq<Pawn>)
    requires IsDraw(pick)
    ensures |r| == |animals|
  {
    var living := LivingIndices(animals);
    LivingIndicesSpec(animals);
    if |living| == 0 then animals
    else
      var m := living[Pick(|living|, pick)];
      assert m < |animals|;
      animals[m := animals[m].(faction := Raider)]
  }

  /** The state after one call of updateEvents with `dt` seconds elapsed.
      The event timer runs in minutes, 60 to the second. While it is still
      positive nothing else happens; once it runs out one event fires (a
      raid on a roll below 0.4, a weather shift below 0.75, a mad animal
      otherwise) and the timer is rearmed for 8 to 20 minutes. */
  function EventsAfter(s: State, dt: real, e: EventDraws): State
    requires ValidEventDraws(e)
  {
    var left := s.nextEventInMinutes - dt * 60.0;
    if left > 0.0 then s.(nextEventInMinutes := left)
    else
      var fired :=
        if e.roll < 0.4 then
          var n := RaidSize(|s.colonists|);
          s.(raiders := s.raiders + Raiders(n, EdgeOf(e.edge), e.along, s.nextEntityId),
             nextEntityId := s.nextEntityId + n)
        else if e.roll < 0.75 then s.(weather := NextWeather(s.weather, e.coin))
        else s.(animals := MadAnimals(s.animals, e.pick));
      fired.(nextEventInMinutes := 8.0 + 12.0 * e.timer)
  }

  /** Between events only the timer moves; after an event the timer is
      rearmed in [8, 20). */
  lemma EventTimer(s: State, dt: real, e: EventDraws)
    requires ValidEventDraws(e)
    ensures var s' := EventsAfter(s, dt, e);
      s.nextEventInMinutes - dt * 60.0 > 0.0 ==> s' == s.(nextEventInMinutes := s.nextEventInMinutes - dt * 60.0)
    ensures var s' := EventsAfter(s, dt, e);
      s.nextEventInMinutes - dt * 60.0 <= 0.0 ==> 8.0 <= s'.nextEventInMinutes < 20.0
    ensures var s' := EventsAfter(s, dt, e);
      s'.tiles == s.tiles && s'.resources == s.resources && s'.colonists == s.colonists
      && s'.stockpile == s.stockpile && s'.timeMinutes == s.timeMinutes && s'.playerOrders == s.playerOrders
  {
  }

  /** A raid appends RaidSize new raiders, all with ids the counter had
      not yet handed out, and advances the counter past them; nothing
      else but the timer changes. */
  lemma RaidAppends(s: State, dt: real, e: EventDraws)
    requires ValidEventDraws(e)
    requires s.nextEventInMinutes - dt * 60.0 <= 0.0 && e.roll < 0.4
    requires forall k :: 0 <= k < |s.raiders| ==> s.raiders[k].id < s.nextEntityId
    ensures var s' := EventsAfter(s, dt, e);
      && |s'.raiders| == |s.raiders| + RaidSize(|s.colonists|)
      && s'.raiders[..|s.raiders|] == s.raiders
      && s'.nextEntityId == s.nextEntityId + RaidSize(|s.colonists|)
      && (forall k :: 0 <= k < |s'.raiders| ==> s'.raiders[k].id < s'.nextEntityId)
      && (forall j, k :: |s.raiders| <= j < k < |s'.raiders| ==> s'.raiders[j].id < s'.raiders[k].id)
      && (forall k :: 0 <= k < |s.raiders| ==> forall j :: |s.raiders| <= j < |s'.raiders| ==> s'.raiders[k].id != s'.raiders[j].id)
      && s'.weather == s.weather && s'.animals == s.animals
  {
    var n := RaidSize(|s.colonists|);
    var newcomers := Raiders(n, EdgeOf(e.edge), e.along, s.nextEntityId);
    var s' := EventsAfter(s, dt, e);
    assert s'.raiders == s.raiders + newcomers;
    assert forall k :: 0 <= k < n ==> newcomers[k].id == s.nextEntityId + k;
  }

  /** A weather event toggles between clear and bad weather and touches
      nothing else but the timer. */
  lemma WeatherShift(s: State, dt: real, e: EventDraws)
    requires ValidEventDraws(e)
    requires s.nextEventInMinutes - dt * 60.0 <= 0.0 && 0.4 <= e.roll < 0.75
    ensures var s' := EventsAfter(s, dt, e);
      && (s'.weather == Clear <==> s.weather != Clear)
      && s' == s.(weather := s'.weather, nextEventInMinutes := s'.nextEventInMinutes)
  {
  }

  /** The mad-animal event turns exactly one living animal hostile when
      there is one, and leaves every other animal as it was. */
  lemma {:induction false} OneAnimalGoesMad(animals: seq<Pawn>, pick: real)
    requires IsDraw(pick)
    ensures var r := MadAnimals(animals, pick);
      (forall k :: 0 <= k < |animals| ==> !Alive(animals[k])) ==> r == animals
    ensures var r := MadAnimals(animals, pick);
      (exists k :: 0 <= k < |animals| && Alive(animals[k])) ==>
        exists m :: 0 <= m < |animals| && Alive(animals[m]) && r == animals[m := animals[m].(faction := Raider)]
  {
    var living := LivingIndices(animals);
    LivingIndicesSpec(animals);
    if exists k :: 0 <= k < |animals| && Alive(animals[k]) {
      var k :| 0 <= k < |animals| && Alive(animals[k]);
      assert k in living;
      var m := living[Pick(|living|, pick)];
      assert m < |animals| && Alive(animals[m]);
    } else {
      NoneLiving(animals);
    }
  }

  /** initEvents: clear weather and a first event 10 to 18 minutes away. */
  method InitEvents(g: Game, r: real)
    modifies g
    ensures g.Abs() == old(g.Abs()).(weather := Clear, nextEventInMinutes := 10.0 + 8.0 * r)
    ensures IsDraw(r) ==> 10.0 <= g.nextEventInMinutes < 18.0
  {
    g.weather := Clear;
    g.nextEventInMinutes := 10.0 + 8.0 * r;
  }

  /** The living animal turned hostile by a mad-animal event, found by
      first collecting the living animals in order. */
  method MakeAnimalMad(g: Game, pick: real)
    requires IsDraw(pick)
    modifies g
    ensures g.Abs() == old(g.Abs()).(animals := MadAnimals(old(g.animals), pick))
  {
    var candidates: seq<nat> := [];
    for k := 0 to |g.animals|
      invariant candidates == LivingIndices(g.animals[..k])
    {
      assert g.animals[..k + 1][..k] == g.animals[..k];
      if Alive(g.animals[k]) {
        candidates := candidates + [k];
      }
    }
    assert g.animals[..|g.animals|] == g.animals;
    LivingIndicesSpec(g.animals);
    if |candidates| > 0 {
      var a := candidates[Pick(|candidates|, pick)];
      g.animals := g.animals[a := g.animals[a].(faction := Raider)];
    }
  }

  /** updateEvents. */
  method UpdateEvents(g: Game, dt: real, e: EventDraws)
    requires ValidEventDraws(e)
    modifies g
    ensures g.Abs() == EventsAfter(old(g.Abs()), dt, e)
  {
    g.nextEventInMinutes := g.nextEventInMinutes - dt * 60.0;
    if g.nextEventInMinutes > 0.0 {
      return;
    }
    if e.roll < 0.4 {
      var n := RaidSize(|g.colonists|);
      var newcomers := SpawnRaiders(n, EdgeOf(e.edge), e.along, g.nextEntityId);
      g.nextEntityId := g.nextEntityId + n;
      g.raiders := g.raiders + newcomers;
    } else if e.roll < 0.75 {
      g.weather := NextWeather(g.weather, e.coin);
    } else {
      MakeAnimalMad(g, e.pick);
    }
    g.nextEventInMinutes := 8.0 + 12.0 * e.timer;
  }
}
