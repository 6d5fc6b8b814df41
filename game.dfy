/** One frame of the simulation, Game.update, and the start of a game
    (colony-mvp/src/game.js). */
module GameLoop {
  import opened Constants
  import opened Utils
  import opened Entity
  import opened PawnNeeds
  import opened Colony
  import opened AI
  import opened Events

  /** Every draw one frame may use: the scheduler's, and one set per
      colonist and per animal, by position. */
  datatype FrameDraws = FrameDraws(events: EventDraws, colonist: nat -> Draws, animal: nat -> Draws)

  ghost predicate ValidFrameDraws(u: FrameDraws)
  {
    && ValidEventDraws(u.events)
    && (forall k: nat :: ValidDraws(u.colonist(k)))
    && (forall k: nat :: ValidDraws(u.animal(k)))
  }

  /** The Game constructor followed by initEvents, on a generated map with
      spawned colonists and animals. */
  method NewGame(tiles: array<Byte>, resources: Resources, colonists: seq<Pawn>, animals: seq<Pawn>,
                 nextEntityId: nat, r: real) returns (g: Game)
    requires tiles.Length == MAP_WIDTH * MAP_HEIGHT && UniqueKeys(resources)
    ensures g.tiles == tiles && g.Valid()
    ensures g.Abs() == State(old(tiles[..]), resources, colonists, [], animals, [], Inventory(0.0, 0.0), [],
                             0.0, Clear, 10.0 + 8.0 * r, false, false, false, nextEntityId)
    ensures IsDraw(r) ==> 10.0 <= g.nextEventInMinutes < 18.0
  {
    g := new Game(tiles, resources, colonists, animals, nextEntityId);
    InitEvents(g, r);
  }

  // ---------------------------------------------------------------------------
  // Sums over pawns

  function Wood(p: Pawn): real { p.inventory.wood }
  function Food(p: Pawn): real { p.inventory.food }
  function Hp(p: Pawn): real { p.hp }

  /** The sum of `f` over the pawns. */
  function Total(ps: seq<Pawn>, f: Pawn -> real): real
  {
    if |ps| == 0 then 0.0 else Total(ps[..|ps| - 1], f) + f(ps[|ps| - 1])
  }

  /** Replacing one pawn changes the sum by the difference it makes. */
  lemma {:induction false} TotalUpdate(ps: seq<Pawn>, i: nat, p: Pawn, f: Pawn -> real)
    requires i < |ps|
    ensures Total(ps[i := p], f) == Total(ps, f) - f(ps[i]) + f(p)
  {
    var qs := ps[i := p];
    if i < |ps| - 1 {
      assert qs[..|qs| - 1] == ps[..|ps| - 1][i := p];
      TotalUpdate(ps[..|ps| - 1], i, p, f);
    } else {
      assert qs[..|qs| - 1] == ps[..|ps| - 1];
    }
  }

  // ---------------------------------------------------------------------------
  // Raider clean-up

  /** raiders.filter(r => r.hp > -50): corpses linger until 50 hp below zero. */
  function Survivors(rs: seq<Pawn>): seq<Pawn>
  {
    if |rs| == 0 then []
    else (if rs[0].hp > -50.0 then [rs[0]] else []) + Survivors(rs[1..])
  }

  /** The filter keeps exactly the raiders above -50 hp, the living ones
      among them, and never adds one. */
  lemma {:induction false} SurvivorsSpec(rs: seq<Pawn>)
    ensures forall p :: p in Survivors(rs) <==> p in rs && p.hp > -50.0
    ensures |Survivors(rs)| <= |rs|
  {
    if |rs| > 0 {
      SurvivorsSpec(rs[1..]);
      assert rs == [rs[0]] + rs[1..];
    }
  }

  // ---------------------------------------------------------------------------
  // Hauling into the stockpile

  /** A colonist hauls when alive, idle and less than 4 tiles from the map
      centre on both axes. */
  predicate Hauls(c: Pawn)
  {
    Alive(c) && c.job.Idle? && Abs(c.pos.x - MAP_WIDTH / 2) < 4 && Abs(c.pos.y - MAP_HEIGHT / 2) < 4
  }

  /** The colonist after hauling: each positive counter is emptied. */
  function Unloaded(c: Pawn): (r: Pawn)
    ensures r == c.(inventory := r.inventory)
    ensures Wood(r) <= Wood(c) && Food(r) <= Food(c)
    ensures !Hauls(c) ==> r == c
    ensures Hauls(c) ==> Wood(r) <= 0.0 && Food(r) <= 0.0
  {
    if Hauls(c) then
      c.(inventory := Inventory(if c.inventory.wood > 0.0 then 0.0 else c.inventory.wood,
                                if c.inventory.food > 0.0 then 0.0 else c.inventory.food))
    else c
  }

  /** The auto-haul pass: every hauling colonist empties its positive
      counters into the stockpile. Material is conserved, the stockpile
      never shrinks, and nothing but inventories and the stockpile changes. */
  method AutoHaul(g: Game)
    modifies g
    ensures g.Abs() == old(g.Abs()).(colonists := g.colonists, stockpile := g.stockpile)
    ensures HaulInv(g.colonists, g.stockpile, old(g.colonists), old(g.stockpile), |g.colonists|)
  {
    g.colonists, g.stockpile := HaulPass(g.colonists, g.stockpile);
  }

  /** The hauling loop over the colonists in order, on values: every
      colonist ends up Unloaded, and what left the inventories is now in
      the stockpile. */
  method HaulPass(cs0: seq<Pawn>, stock0: Inventory) returns (cs: seq<Pawn>, stock: Inventory)
    ensures HaulInv(cs, stock, cs0, stock0, |cs|)
  {
    cs, stock := cs0, stock0;
    for i := 0 to |cs|
      invariant HaulInv(cs, stock, cs0, stock0, i)
    {
      HaulStep(cs, stock, cs0, stock0, i);
      var c := cs[i];
      if Hauls(c) {
        if c.inventory.wood > 0.0 {
          stock := stock.(wood := stock.wood + c.inventory.wood);
          c := c.(inventory := c.inventory.(wood := 0.0));
        }
        if c.inventory.food > 0.0 {
          stock := stock.(food := stock.food + c.inventory.food);
          c := c.(inventory := c.inventory.(food := 0.0));
        }
        cs := cs[i := c];
      }
    }
  }

  /** The first `i` colonists of `cs0` have hauled into `stock0`, giving
      `cs` and `stock`. */
  ghost predicate HaulInv(cs: seq<Pawn>, stock: Inventory, cs0: seq<Pawn>, stock0: Inventory, i: nat)
  {
    && i <= |cs| == |cs0|
    && (forall k :: 0 <= k < i ==> cs[k] == Unloaded(cs0[k]))
    && (forall k :: i <= k < |cs| ==> cs[k] == cs0[k])
    && stock.wood + Total(cs, Wood) == stock0.wood + Total(cs0, Wood)
    && stock.food + Total(cs, Food) == stock0.food + Total(cs0, Food)
    && stock.wood >= stock0.wood && stock.food >= stock0.food
  }

  /** One colonist's haul keeps HaulInv. */
  lemma HaulStep(cs: seq<Pawn>, stock: Inventory, cs0: seq<Pawn>, stock0: Inventory, i: nat)
    requires HaulInv(cs, stock, cs0, stock0, i) && i < |cs|
    ensures var c := cs[i];
      var w := if Hauls(c) && c.inventory.wood > 0.0 then c.inventory.wood else 0.0;
      var f := if Hauls(c) && c.inventory.food > 0.0 then c.inventory.food else 0.0;
      HaulInv(cs[i := Unloaded(c)], Inventory(stock.wood + w, stock.food + f), cs0, stock0, i + 1)
  {
    var c := cs[i];
    TotalUpdate(cs, i, Unloaded(c), Wood);
    TotalUpdate(cs, i, Unloaded(c), Food);
  }

  // ---------------------------------------------------------------------------
  // Contact fighting

  /** Pawn `p` stands within melee reach of some pawn of `others`. */
  ghost predicate InReach(p: Pawn, others: seq<Pawn>)
  {
    exists k :: 0 <= k < |others| && Manhattan(others[k].pos, p.pos) <= MELEE_RANGE
  }

  /** A pawn after one exchange of blows: 8 hp lost per second. */
  function Struck(p: Pawn, dt: real): Pawn
  {
    p.(hp := p.hp - 8.0 * dt)
  }

  /** Colonist `c` trades blows with raider `r`: it is alive and within
      melee reach. */
  predicate Clashes(c: Pawn, r: Pawn)
  {
    Alive(c) && Manhattan(c.pos, r.pos) <= MELEE_RANGE
  }

  /** The number of colonists of `cs` that raider `r` clashes with. */
  function Clashing(cs: seq<Pawn>, r: Pawn): nat
  {
    if |cs| == 0 then 0 else Clashing(cs[..|cs| - 1], r) + (if Clashes(cs[|cs| - 1], r) then 1 else 0)
  }

  /** The hit points `n` blows of the contact pass take in `dt` seconds. */
  function Blows(n: nat, dt: real): real
  {
    if n == 0 then 0.0 else Blows(n - 1, dt) + 8.0 * dt
  }

  /** Each blow takes 8 hp per second. */
  lemma {:induction false} BlowsProduct(n: nat, dt: real)
    ensures Blows(n, dt) == 8.0 * dt * (n as real)
  {
    if n > 0 {
      BlowsProduct(n - 1, dt);
      assert 8.0 * dt * ((n - 1) as real) + 8.0 * dt == 8.0 * dt * (n as real);
    }
  }

  /** One living raider's turn of the contact pass, over the colonists in
      order: the colonists and the raider after it. */
  function RaiderTurn(cs: seq<Pawn>, r: Pawn, dt: real): (t: (seq<Pawn>, Pawn))
    ensures |t.0| == |cs| && t.1 == r.(hp := t.1.hp)
  {
    if |cs| == 0 then ([], r)
    else
      var t := RaiderTurn(cs[..|cs| - 1], r, dt);
      var c := cs[|cs| - 1];
      if Clashes(c, t.1) then (t.0 + [Struck(c, dt)], Struck(t.1, dt)) else (t.0 + [c], t.1)
  }

  /** The contact pass over the raiders in order, each living raider taking
      its turn against the colonists as the earlier turns left them: the
      colonists and the raiders after it. */
  function ContactAfter(cs: seq<Pawn>, rs: seq<Pawn>, dt: real): (t: (seq<Pawn>, seq<Pawn>))
    ensures |t.0| == |cs| && |t.1| == |rs|
  {
    if |rs| == 0 then (cs, [])
    else
      var t := ContactAfter(cs, rs[..|rs| - 1], dt);
      var r := rs[|rs| - 1];
      if Alive(r) then
        var u := RaiderTurn(t.0, r, dt);
        (u.0, t.1 + [u.1])
      else (t.0, t.1 + [r])
  }

  /** In a raider's turn every colonist it clashes with loses 8 hp per
      second and the others are untouched; the raider loses 8 hp per second
      for each colonist it clashes with. */
  lemma RaiderTurnSpec(cs: seq<Pawn>, r: Pawn, dt: real)
    ensures forall k :: 0 <= k < |cs| ==>
      RaiderTurn(cs, r, dt).0[k] == if Clashes(cs[k], r) then Struck(cs[k], dt) else cs[k]
    ensures RaiderTurn(cs, r, dt).1 == r.(hp := r.hp - Blows(Clashing(cs, r), dt))
  {
    RaiderTurnColonists(cs, r, dt);
    RaiderTurnRaider(cs, r, dt);
  }

  lemma {:induction false} RaiderTurnColonists(cs: seq<Pawn>, r: Pawn, dt: real)
    ensures forall k :: 0 <= k < |cs| ==>
      RaiderTurn(cs, r, dt).0[k] == if Clashes(cs[k], r) then Struck(cs[k], dt) else cs[k]
  {
    if |cs| > 0 {
      var init := cs[..|cs| - 1];
      RaiderTurnColonists(init, r, dt);
      var t := RaiderTurn(init, r, dt);
      assert Clashes(cs[|cs| - 1], t.1) == Clashes(cs[|cs| - 1], r);
      forall k | 0 <= k < |cs|
        ensures RaiderTurn(cs, r, dt).0[k] == if Clashes(cs[k], r) then Struck(cs[k], dt) else cs[k]
      {
        if k < |cs| - 1 {
          assert init[k] == cs[k];
        }
      }
    }
  }

  lemma {:induction false} RaiderTurnRaider(cs: seq<Pawn>, r: Pawn, dt: real)
    ensures RaiderTurn(cs, r, dt).1.hp == r.hp - Blows(Clashing(cs, r), dt)
  {
    if |cs| > 0 {
      var init, c := cs[..|cs| - 1], cs[|cs| - 1];
      RaiderTurnRaider(init, r, dt);
      assert RaiderTurn(init, r, dt).1.pos == r.pos;
      if Clashes(c, r) {
        assert RaiderTurn(cs, r, dt).1.hp == RaiderTurn(init, r, dt).1.hp - 8.0 * dt;
      } else {
        assert RaiderTurn(cs, r, dt).1.hp == RaiderTurn(init, r, dt).1.hp;
      }
    }
  }

  /** Later turns leave earlier raiders alone: the first `n` raiders after
      the whole pass are as the pass over those `n` alone left them. */
  lemma {:induction false} ContactPrefix(cs: seq<Pawn>, rs: seq<Pawn>, dt: real, n: nat)
    requires n <= |rs|
    ensures ContactAfter(cs, rs, dt).1[..n] == ContactAfter(cs, rs[..n], dt).1
  {
    if n < |rs| {
      var init := rs[..|rs| - 1];
      ContactPrefix(cs, init, dt, n);
      assert init[..n] == rs[..n];
    } else {
      assert rs[..n] == rs;
    }
  }

  /** Raider `j`'s turn in the contact pass: when it is alive, every
      colonist that is alive and within its reach at the start of its turn
      loses 8 hp per second and the other colonists are untouched, and the
      raider ends the pass having lost 8 hp per second for each such
      colonist. A dead raider's turn changes nothing. */
  lemma ContactTurn(cs: seq<Pawn>, rs: seq<Pawn>, dt: real, j: nat)
    requires j < |rs|
    ensures var before, after := ContactAfter(cs, rs[..j], dt).0, ContactAfter(cs, rs[..j + 1], dt).0;
      forall k :: 0 <= k < |cs| ==>
        after[k] == if Alive(rs[j]) && Clashes(before[k], rs[j]) then Struck(before[k], dt) else before[k]
    ensures var before := ContactAfter(cs, rs[..j], dt).0;
      ContactAfter(cs, rs, dt).1[j] ==
        if Alive(rs[j]) then rs[j].(hp := rs[j].hp - Blows(Clashing(before, rs[j]), dt)) else rs[j]
  {
    ContactTurnColonists(cs, rs, dt, j);
    ContactTurnRaider(cs, rs, dt, j);
  }

  lemma ContactTurnColonists(cs: seq<Pawn>, rs: seq<Pawn>, dt: real, j: nat)
    requires j < |rs|
    ensures var before, after := ContactAfter(cs, rs[..j], dt).0, ContactAfter(cs, rs[..j + 1], dt).0;
      forall k :: 0 <= k < |cs| ==>
        after[k] == if Alive(rs[j]) && Clashes(before[k], rs[j]) then Struck(before[k], dt) else before[k]
  {
    var before := ContactAfter(cs, rs[..j], dt).0;
    assert rs[..j + 1][..j] == rs[..j] && rs[..j + 1][j] == rs[j];
    assert ContactAfter(cs, rs[..j + 1], dt).0 == if Alive(rs[j]) then RaiderTurn(before, rs[j], dt).0 else before;
    RaiderTurnColonists(before, rs[j], dt);
  }

  lemma ContactTurnRaider(cs: seq<Pawn>, rs: seq<Pawn>, dt: real, j: nat)
    requires j < |rs|
    ensures var before := ContactAfter(cs, rs[..j], dt).0;
      ContactAfter(cs, rs, dt).1[j] ==
        if Alive(rs[j]) then rs[j].(hp := rs[j].hp - Blows(Clashing(before, rs[j]), dt)) else rs[j]
  {
    var before := ContactAfter(cs, rs[..j], dt).0;
    var turn := ContactAfter(cs, rs[..j + 1], dt).1;
    assert turn[j] == if Alive(rs[j]) then RaiderTurn(before, rs[j], dt).1 else rs[j] by {
      assert rs[..j + 1][..j] == rs[..j] && rs[..j + 1][j] == rs[j];
    }
    assert ContactAfter(cs, rs, dt).1[j] == turn[j] by {
      ContactPrefix(cs, rs, dt, j + 1);
      assert ContactAfter(cs, rs, dt).1[j] == ContactAfter(cs, rs, dt).1[..j + 1][j];
    }
    RaiderTurnRaider(before, rs[j], dt);
  }

  /** The contact pass as a whole keeps ContactInv: only hit points change,
      never upwards, the dead and those out of every opponent's reach are
      untouched, and both sides lose the same total. */
  lemma ContactAfterInv(cs: seq<Pawn>, rs: seq<Pawn>, dt: real)
    ensures ContactInv(ContactAfter(cs, rs, dt).0, ContactAfter(cs, rs, dt).1, cs, rs, dt)
  {
    assert rs[..0] == [] && rs[0..] == rs;
    assert ContactAfter(cs, rs[..0], dt) == (cs, []);
    assert ContactAfter(cs, rs[..0], dt).1 + rs[0..] == rs;
    for n := 0 to |rs|
      invariant ContactInv(ContactAfter(cs, rs[..n], dt).0, ContactAfter(cs, rs[..n], dt).1 + rs[n..], cs, rs, dt)
    {
      AfterStep(cs, rs, dt, n);
    }
    var t := ContactAfter(cs, rs, dt);
    assert rs[..|rs|] == rs;
    assert ContactAfter(cs, rs[..|rs|], dt) == t;
    assert t.1 + rs[|rs|..] == t.1;
  }

  /** Raider `n`'s turn keeps ContactInv. */
  lemma AfterStep(cs: seq<Pawn>, rs: seq<Pawn>, dt: real, n: nat)
    requires n < |rs|
    requires ContactInv(ContactAfter(cs, rs[..n], dt).0, ContactAfter(cs, rs[..n], dt).1 + rs[n..], cs, rs, dt)
    ensures ContactInv(ContactAfter(cs, rs[..n + 1], dt).0, ContactAfter(cs, rs[..n + 1], dt).1 + rs[n + 1..], cs, rs, dt)
  {
    var t := ContactAfter(cs, rs[..n], dt);
    assert rs[..n + 1][..n] == rs[..n] && rs[..n + 1][n] == rs[n];
    assert rs[n..] == [rs[n]] + rs[n + 1..];
    if Alive(rs[n]) {
      TurnInv(cs, rs, dt, n, t.0, t.1);
      var u := RaiderTurn(t.0, rs[n], dt);
      assert ContactAfter(cs, rs[..n + 1], dt) == (u.0, t.1 + [u.1]);
    } else {
      assert ContactAfter(cs, rs[..n + 1], dt) == (t.0, t.1 + [rs[n]]);
      assert t.1 + rs[n..] == (t.1 + [rs[n]]) + rs[n + 1..];
    }
  }

  /** A living raider's whole turn keeps ContactInv. */
  lemma TurnInv(cs: seq<Pawn>, rs: seq<Pawn>, dt: real, n: nat, before: seq<Pawn>, done: seq<Pawn>)
    requires n < |rs| && Alive(rs[n]) && |done| == n
    requires ContactInv(before, done + rs[n..], cs, rs, dt)
    ensures var u := RaiderTurn(before, rs[n], dt);
      ContactInv(u.0, (done + [u.1]) + rs[n + 1..], cs, rs, dt)
  {
    var mid := done + rs[n..];
    TurnPrefix(cs, rs, dt, n, before, mid, |before|);
    var u := RaiderTurn(before, rs[n], dt);
    assert before[..|before|] == before && before[|before|..] == [];
    assert u.0 + before[|before|..] == u.0;
    assert mid[n := u.1] == (done + [u.1]) + rs[n + 1..];
  }

  /** The first `k` steps of a living raider's turn keep ContactInv. */
  lemma {:induction false} TurnPrefix(cs: seq<Pawn>, rs: seq<Pawn>, dt: real, n: nat, before: seq<Pawn>, mid: seq<Pawn>, k: nat)
    requires n < |rs| == |mid| && Alive(rs[n]) && mid[n] == rs[n] && k <= |before|
    requires ContactInv(before, mid, cs, rs, dt)
    ensures var u := RaiderTurn(before[..k], rs[n], dt);
      ContactInv(u.0 + before[k..], mid[n := u.1], cs, rs, dt)
  {
    if k == 0 {
      assert before[..0] == [] && before[0..] == before;
      assert RaiderTurn(before[..0], rs[n], dt) == ([], rs[n]);
      assert [] + before[0..] == before && mid[n := rs[n]] == mid;
    } else {
      TurnPrefix(cs, rs, dt, n, before, mid, k - 1);
      TurnStep(cs, rs, dt, n, before, mid, k - 1);
    }
  }

  /** One colonist's step of a living raider's turn keeps ContactInv. */
  lemma TurnStep(cs: seq<Pawn>, rs: seq<Pawn>, dt: real, n: nat, before: seq<Pawn>, mid: seq<Pawn>, k: nat)
    requires n < |rs| == |mid| && Alive(rs[n]) && k < |before|
    requires var u := RaiderTurn(before[..k], rs[n], dt);
      ContactInv(u.0 + before[k..], mid[n := u.1], cs, rs, dt)
    ensures var u := RaiderTurn(before[..k + 1], rs[n], dt);
      ContactInv(u.0 + before[k + 1..], mid[n := u.1], cs, rs, dt)
  {
    var u := RaiderTurn(before[..k], rs[n], dt);
    assert before[..k + 1][..k] == before[..k] && before[..k + 1][k] == before[k];
    if Clashes(before[k], u.1) {
      TurnHit(cs, rs, dt, n, before, mid, k);
    } else {
      assert RaiderTurn(before[..k + 1], rs[n], dt) == (u.0 + [before[k]], u.1);
      assert u.0 + before[k..] == (u.0 + [before[k]]) + before[k + 1..];
    }
  }

  /** The step of TurnStep where the raider clashes with colonist `k`. */
  lemma TurnHit(cs: seq<Pawn>, rs: seq<Pawn>, dt: real, n: nat, before: seq<Pawn>, mid: seq<Pawn>, k: nat)
    requires n < |rs| == |mid| && Alive(rs[n]) && k < |before|
    requires var u := RaiderTurn(before[..k], rs[n], dt);
      ContactInv(u.0 + before[k..], mid[n := u.1], cs, rs, dt) && Clashes(before[k], u.1)
    requires before[..k + 1][..k] == before[..k] && before[..k + 1][k] == before[k]
    ensures var u := RaiderTurn(before[..k + 1], rs[n], dt);
      ContactInv(u.0 + before[k + 1..], mid[n := u.1], cs, rs, dt)
  {
    var u := RaiderTurn(before[..k], rs[n], dt);
    var u' := RaiderTurn(before[..k + 1], rs[n], dt);
    assert u' == (u.0 + [Struck(before[k], dt)], Struck(u.1, dt));
    var cur, rcur := u.0 + before[k..], mid[n := u.1];
    assert cur[k] == before[k] && rcur[n] == u.1;
    assert u'.0 + before[k + 1..] == cur[k := Struck(cur[k], dt)];
    assert mid[n := u'.1] == rcur[n := Struck(rcur[n], dt)];
    ContactHit(cur, rcur, cs, rs, dt, n, k, u'.0 + before[k + 1..], mid[n := u'.1]);
  }

  /** The contact pass: for every living raider and, in turn, every
      colonist still alive, a pair within melee reach both lose 8 hp per
      second, as ContactAfter describes it. Nothing but the pawns of the
      two sides changes. */
  method Contact(g: Game, dt: real)
    modifies g
    ensures g.Abs() == old(g.Abs()).(colonists := g.colonists, raiders := g.raiders)
    ensures (g.colonists, g.raiders) == ContactAfter(old(g.colonists), old(g.raiders), dt)
    ensures ContactInv(g.colonists, g.raiders, old(g.colonists), old(g.raiders), dt)
  {
    g.colonists, g.raiders := ContactPass(g.colonists, g.raiders, dt);
  }

  /** The contact loops on values: raiders in order, each living one
      trading blows with every colonist still alive within reach. */
  method ContactPass(cs0: seq<Pawn>, rs0: seq<Pawn>, dt: real) returns (cs: seq<Pawn>, rs: seq<Pawn>)
    ensures (cs, rs) == ContactAfter(cs0, rs0, dt)
    ensures ContactInv(cs, rs, cs0, rs0, dt)
  {
    cs, rs := cs0, rs0;
    assert rs0[..0] == [];
    for j := 0 to |rs|
      invariant |rs| == |rs0| && rs[j..] == rs0[j..]
      invariant cs == ContactAfter(cs0, rs0[..j], dt).0 && rs[..j] == ContactAfter(cs0, rs0[..j], dt).1
    {
      assert rs0[..j + 1][..j] == rs0[..j] && rs0[..j + 1][j] == rs0[j] && rs[j] == rs0[j];
      assert rs[j + 1..] == rs[j..][1..] && rs0[j + 1..] == rs0[j..][1..];
      if Alive(rs[j]) {
        var r;
        cs, r := FightRaider(cs, rs[j], dt);
        assert rs[j := r][..j + 1] == rs[..j] + [r] && rs[j := r][j + 1..] == rs[j + 1..];
        rs := rs[j := r];
      } else {
        assert rs[..j + 1] == rs[..j] + [rs[j]];
      }
    }
    assert rs0[..|rs0|] == rs0 && rs[..|rs|] == rs;
    ContactAfterInv(cs0, rs0, dt);
  }

  /** One living raider's turn: it trades blows with each colonist that is
      still alive and within reach, in order. */
  method FightRaider(cs0: seq<Pawn>, r0: Pawn, dt: real) returns (cs: seq<Pawn>, r: Pawn)
    ensures (cs, r) == RaiderTurn(cs0, r0, dt)
  {
    cs, r := cs0, r0;
    assert cs0[..0] == [];
    for k := 0 to |cs|
      invariant |cs| == |cs0| && cs[k..] == cs0[k..]
      invariant (cs[..k], r) == RaiderTurn(cs0[..k], r0, dt)
    {
      assert cs0[..k + 1][..k] == cs0[..k] && cs0[..k + 1][k] == cs0[k] && cs[k] == cs0[k];
      assert cs[k + 1..] == cs[k..][1..] && cs0[k + 1..] == cs0[k..][1..];
      if Alive(cs[k]) && Manhattan(cs[k].pos, r.pos) <= MELEE_RANGE {
        r := r.(hp := r.hp - 8.0 * dt);
        assert cs[k := Struck(cs[k], dt)][k + 1..] == cs[k + 1..];
        cs := cs[k := cs[k].(hp := cs[k].hp - 8.0 * dt)];
        assert cs[..k + 1] == cs[..k] + [Struck(cs0[k], dt)];
      } else {
        assert cs[..k + 1] == cs[..k] + [cs0[k]];
      }
    }
    assert cs0[..|cs0|] == cs0 && cs[..|cs|] == cs;
  }

  /** What the contact pass keeps between the pawns `cs0`, `rs0` it started
      from and the pawns `cs`, `rs` it has reached: the same pawns, only hit
      points changed and never raised (for dt >= 0), the dead and those out
      of reach of every opponent untouched, and equal totals lost on both
      sides. */
  ghost predicate ContactInv(cs: seq<Pawn>, rs: seq<Pawn>, cs0: seq<Pawn>, rs0: seq<Pawn>, dt: real)
  {
    && |cs| == |cs0| && |rs| == |rs0|
    && (forall k :: 0 <= k < |cs| ==> cs[k] == cs0[k].(hp := cs[k].hp))
    && (forall j :: 0 <= j < |rs| ==> rs[j] == rs0[j].(hp := rs[j].hp))
    && (forall k :: 0 <= k < |cs| && (!Alive(cs0[k]) || !InReach(cs0[k], rs0)) ==> cs[k] == cs0[k])
    && (forall j :: 0 <= j < |rs| && (!Alive(rs0[j]) || !InReach(rs0[j], cs0)) ==> rs[j] == rs0[j])
    && (dt >= 0.0 ==>
          && (forall k :: 0 <= k < |cs| ==> cs[k].hp <= cs0[k].hp)
          && (forall j :: 0 <= j < |rs| ==> rs[j].hp <= rs0[j].hp))
    && Total(rs, Hp) - Total(cs, Hp) == Total(rs0, Hp) - Total(cs0, Hp)
  }

  /** One exchange of blows between a raider that was alive when its turn
      came and a living colonist in reach keeps ContactInv. */
  lemma ContactHit(cs: seq<Pawn>, rs: seq<Pawn>, cs0: seq<Pawn>, rs0: seq<Pawn>, dt: real, j: nat, k: nat,
                    cs': seq<Pawn>, rs': seq<Pawn>)
    requires ContactInv(cs, rs, cs0, rs0, dt)
    requires j < |rs| && k < |cs| && Alive(rs0[j]) && Alive(cs[k])
    requires Manhattan(cs[k].pos, rs[j].pos) <= MELEE_RANGE
    requires cs' == cs[k := Struck(cs[k], dt)] && rs' == rs[j := Struck(rs[j], dt)]
    ensures ContactInv(cs', rs', cs0, rs0, dt)
  {
    TotalUpdate(rs, j, rs'[j], Hp);
    TotalUpdate(cs, k, cs'[k], Hp);
    assert cs[k].pos == cs0[k].pos && rs[j].pos == rs0[j].pos;
    assert Alive(cs0[k]);
    assert InReach(cs0[k], rs0) by {
      ManhattanSymmetric(cs0[k].pos, rs0[j].pos);
    }
    assert InReach(rs0[j], cs0);
  }

  // ---------------------------------------------------------------------------
  // One frame

  /** The state after the last step of a trace. */
  function Last(ss: seq<State>): State
    requires |ss| > 0
  {
    ss[|ss| - 1]
  }

  /** Colonist `i`'s turn of the colonist loop: a dead colonist is
      skipped; a living one first has its needs decay, the frame's seconds
      counting as minutes, and then its AI runs. */
  ghost predicate ColonistActs(s: State, s': State, i: nat, dt: real, d: Draws)
    requires i < |s.colonists|
  {
    var c := s.colonists[i];
    if !Alive(c) then s' == s
    else ColonistUpdated(WithColonist(s, i, c.(needs := UpdateNeeds(c.needs, dt, s.weather))), s', i, dt, d)
  }

  /** `ss` traces the colonist loop: `ss[i + 1]` is the world after
      colonist `i`'s turn, taken in `ss[i]`. */
  ghost predicate ColonistLoop(ss: seq<State>, dt: real, u: FrameDraws)
  {
    |ss| > 0 && |ss| == |ss[0].colonists| + 1 && ColonistTurns(ss, dt, u)
  }

  /** Every step of `ss` is the turn of the colonist at that position. */
  ghost predicate ColonistTurns(ss: seq<State>, dt: real, u: FrameDraws)
  {
    forall i :: 0 <= i < |ss| - 1 ==> ColonistStepAt(ss, i, dt, u)
  }

  /** Step `i` of `ss` is the turn of the colonist at position `i`. */
  ghost predicate ColonistStepAt(ss: seq<State>, i: nat, dt: real, u: FrameDraws)
    requires i < |ss| - 1
  {
    i < |ss[i].colonists| && ColonistActs(ss[i], ss[i + 1], i, dt, u.colonist(i))
  }

  lemma ColonistTurnsExtend(ss: seq<State>, s': State, dt: real, u: FrameDraws)
    requires |ss| > 0 && ColonistTurns(ss, dt, u)
    requires |ss| - 1 < |Last(ss).colonists| && ColonistActs(Last(ss), s', |ss| - 1, dt, u.colonist(|ss| - 1))
    ensures ColonistTurns(ss + [s'], dt, u)
  {
    var ss' := ss + [s'];
    forall i | 0 <= i < |ss'| - 1
      ensures ColonistStepAt(ss', i, dt, u)
    {
      if i < |ss| - 1 {
        assert ColonistStepAt(ss, i, dt, u);
        assert ss'[i] == ss[i] && ss'[i + 1] == ss[i + 1];
      } else {
        assert ss'[i] == Last(ss) && ss'[i + 1] == s';
      }
    }
  }

  /** Raider `j`'s turn of the raider loop: skipped when dead, its AI
      otherwise. */
  ghost predicate RaiderActs(s: State, s': State, j: nat, dt: real)
    requires j < |s.raiders|
  {
    if !Alive(s.raiders[j]) then s' == s else RaiderUpdated(s, s', j, dt)
  }

  /** `ss` traces the raider loop: `ss[j + 1]` is the world after
      raider `j`'s turn, taken in `ss[j]`. */
  ghost predicate RaiderLoop(ss: seq<State>, dt: real)
  {
    |ss| > 0 && |ss| == |ss[0].raiders| + 1 && RaiderTurns(ss, dt)
  }

  /** Every step of `ss` is the turn of the raider at that position. */
  ghost predicate RaiderTurns(ss: seq<State>, dt: real)
  {
    forall j :: 0 <= j < |ss| - 1 ==> RaiderStepAt(ss, j, dt)
  }

  /** Step `j` of `ss` is the turn of the raider at position `j`. */
  ghost predicate RaiderStepAt(ss: seq<State>, j: nat, dt: real)
    requires j < |ss| - 1
  {
    j < |ss[j].raiders| && RaiderActs(ss[j], ss[j + 1], j, dt)
  }

  lemma RaiderTurnsExtend(ss: seq<State>, s': State, dt: real)
    requires |ss| > 0 && RaiderTurns(ss, dt)
    requires |ss| - 1 < |Last(ss).raiders| && RaiderActs(Last(ss), s', |ss| - 1, dt)
    ensures RaiderTurns(ss + [s'], dt)
  {
    var ss' := ss + [s'];
    forall j | 0 <= j < |ss'| - 1
      ensures RaiderStepAt(ss', j, dt)
    {
      if j < |ss| - 1 {
        assert RaiderStepAt(ss, j, dt);
        assert ss'[j] == ss[j] && ss'[j + 1] == ss[j + 1];
      } else {
        assert ss'[j] == Last(ss) && ss'[j + 1] == s';
      }
    }
  }

  /** Animal `k`'s turn of the animal loop: skipped when dead, its AI
      otherwise. */
  ghost predicate AnimalActs(s: State, s': State, k: nat, dt: real, d: Draws)
    requires k < |s.animals|
  {
    if !Alive(s.animals[k]) then s' == s else AnimalUpdated(s, s', k, dt, d)
  }

  /** `ss` traces the animal loop: `ss[k + 1]` is the world after
      animal `k`'s turn, taken in `ss[k]`. */
  ghost predicate AnimalLoop(ss: seq<State>, dt: real, u: FrameDraws)
  {
    |ss| > 0 && |ss| == |ss[0].animals| + 1 && AnimalTurns(ss, dt, u)
  }

  /** Every step of `ss` is the turn of the animal at that position. */
  ghost predicate AnimalTurns(ss: seq<State>, dt: real, u: FrameDraws)
  {
    forall k :: 0 <= k < |ss| - 1 ==> AnimalStepAt(ss, k, dt, u)
  }

  /** Step `k` of `ss` is the turn of the animal at position `k`. */
  ghost predicate AnimalStepAt(ss: seq<State>, k: nat, dt: real, u: FrameDraws)
    requires k < |ss| - 1
  {
    k < |ss[k].animals| && AnimalActs(ss[k], ss[k + 1], k, dt, u.animal(k))
  }

  lemma AnimalTurnsExtend(ss: seq<State>, s': State, dt: real, u: FrameDraws)
    requires |ss| > 0 && AnimalTurns(ss, dt, u)
    requires |ss| - 1 < |Last(ss).animals| && AnimalActs(Last(ss), s', |ss| - 1, dt, u.animal(|ss| - 1))
    ensures AnimalTurns(ss + [s'], dt, u)
  {
    var ss' := ss + [s'];
    forall k | 0 <= k < |ss'| - 1
      ensures AnimalStepAt(ss', k, dt, u)
    {
      if k < |ss| - 1 {
        assert AnimalStepAt(ss, k, dt, u);
        assert ss'[k] == ss[k] && ss'[k + 1] == ss[k + 1];
      } else {
        assert ss'[k] == Last(ss) && ss'[k + 1] == s';
      }
    }
  }

  /** Colonist `i`'s turn: its needs decay, then its AI runs. */
  method RunColonist(g: Game, i: nat, dt: real, d: Draws)
    requires g.Valid() && i < |g.colonists| && ValidDraws(d)
    modifies g, g.tiles
    ensures g.Valid()
    ensures AgentFrame(old(g.Abs()), g.Abs())
    ensures ColonistActs(old(g.Abs()), g.Abs(), i, dt, d)
    ensures forall k :: 0 <= k < |g.colonists| && k != i ==> g.colonists[k] == old(g.colonists[k])
    ensures !Alive(old(g.colonists[i])) ==> g.colonists[i] == old(g.colonists[i])
  {
    var c := g.colonists[i];
    if Alive(c) {
      g.colonists := g.colonists[i := c.(needs := UpdateNeeds(c.needs, dt, g.weather))];
      UpdateColonistAI(g, i, dt, d);
    }
  }

  /** The colonist loop: each living colonist's needs decay over the frame
      (a second counting as a minute), then its AI runs, as the trace `ss`
      records turn by turn. Dead colonists are skipped and stay as they
      were. */
  method ColonistPhase(g: Game, dt: real, u: FrameDraws) returns (ghost ss: seq<State>)
    requires g.Valid() && ValidFrameDraws(u)
    modifies g, g.tiles
    ensures g.Valid()
    ensures AgentFrame(old(g.Abs()), g.Abs())
    ensures forall k :: 0 <= k < |g.colonists| && !Alive(old(g.colonists[k])) ==> g.colonists[k] == old(g.colonists[k])
    ensures ColonistLoop(ss, dt, u) && ss[0] == old(g.Abs()) && Last(ss) == g.Abs()
  {
    ss := [g.Abs()];
    for i := 0 to |g.colonists|
      invariant g.Valid()
      invariant AgentFrame(old(g.Abs()), g.Abs())
      invariant forall k :: 0 <= k < |g.colonists| && !Alive(old(g.colonists[k])) ==> g.colonists[k] == old(g.colonists[k])
      invariant |ss| == i + 1 && ss[0] == old(g.Abs()) && ss[i] == g.Abs()
      invariant ColonistTurns(ss, dt, u)
    {
      RunColonist(g, i, dt, u.colonist(i));
      ColonistTurnsExtend(ss, g.Abs(), dt, u);
      ss := ss + [g.Abs()];
    }
  }

  /** Raider `j`'s turn: its AI runs when it is alive. */
  method RunRaider(g: Game, j: nat, dt: real)
    requires j < |g.raiders|
    modifies g
    ensures RaiderActs(old(g.Abs()), g.Abs(), j, dt)
    ensures g.Abs() == old(g.Abs()).(colonists := g.colonists, raiders := g.raiders)
    ensures |g.colonists| == |old(g.colonists)| && |g.raiders| == |old(g.raiders)|
    ensures forall k :: 0 <= k < |g.colonists| && !Alive(old(g.colonists[k])) ==> g.colonists[k] == old(g.colonists[k])
    ensures forall k :: 0 <= k < |g.raiders| && (k != j || !Alive(old(g.raiders[k]))) ==> g.raiders[k] == old(g.raiders[k])
  {
    if Alive(g.raiders[j]) {
      UpdateRaiderAI(g, j, dt);
    }
  }

  /** The raider loop: each living raider's AI runs, as the trace `ss`
      records turn by turn; the raiders' blows never fall on a dead
      colonist. */
  method RaiderPhase(g: Game, dt: real) returns (ghost ss: seq<State>)
    modifies g
    ensures g.Abs() == old(g.Abs()).(colonists := g.colonists, raiders := g.raiders)
    ensures |g.colonists| == |old(g.colonists)| && |g.raiders| == |old(g.raiders)|
    ensures forall k :: 0 <= k < |g.colonists| && !Alive(old(g.colonists[k])) ==> g.colonists[k] == old(g.colonists[k])
    ensures forall k :: 0 <= k < |g.raiders| && !Alive(old(g.raiders[k])) ==> g.raiders[k] == old(g.raiders[k])
    ensures RaiderLoop(ss, dt) && ss[0] == old(g.Abs()) && Last(ss) == g.Abs()
  {
    ss := [g.Abs()];
    for j := 0 to |g.raiders|
      invariant g.Abs() == old(g.Abs()).(colonists := g.colonists, raiders := g.raiders)
      invariant |g.colonists| == |old(g.colonists)| && |g.raiders| == |old(g.raiders)|
      invariant forall k :: 0 <= k < |g.colonists| && !Alive(old(g.colonists[k])) ==> g.colonists[k] == old(g.colonists[k])
      invariant forall k :: 0 <= k < |g.raiders| && (j <= k || !Alive(old(g.raiders[k]))) ==> g.raiders[k] == old(g.raiders[k])
      invariant |ss| == j + 1 && ss[0] == old(g.Abs()) && ss[j] == g.Abs()
      invariant RaiderTurns(ss, dt)
    {
      RunRaider(g, j, dt);
      RaiderTurnsExtend(ss, g.Abs(), dt);
      ss := ss + [g.Abs()];
    }
  }

  /** The animal loop: each living animal's AI runs, as the trace `ss`
      records turn by turn. */
  method AnimalPhase(g: Game, dt: real, u: FrameDraws) returns (ghost ss: seq<State>)
    requires ValidFrameDraws(u)
    modifies g
    ensures g.Abs() == old(g.Abs()).(animals := g.animals) && |g.animals| == |old(g.animals)|
    ensures forall m :: 0 <= m < |g.animals| && !Alive(old(g.animals[m])) ==> g.animals[m] == old(g.animals[m])
    ensures AnimalLoop(ss, dt, u) && ss[0] == old(g.Abs()) && Last(ss) == g.Abs()
  {
    ss := [g.Abs()];
    for k := 0 to |g.animals|
      invariant g.Abs() == old(g.Abs()).(animals := g.animals) && |g.animals| == |old(g.animals)|
      invariant forall m :: 0 <= m < |g.animals| && (k <= m || !Alive(old(g.animals[m]))) ==> g.animals[m] == old(g.animals[m])
      invariant |ss| == k + 1 && ss[0] == old(g.Abs()) && ss[k] == g.Abs()
      invariant AnimalTurns(ss, dt, u)
    {
      if Alive(g.animals[k]) {
        UpdateAnimalAI(g, k, dt, u.animal(k));
      }
      AnimalTurnsExtend(ss, g.Abs(), dt, u);
      ss := ss + [g.Abs()];
    }
  }

  /** The scheduler's share of a frame: the world becomes EventsAfter of
      the world before it; in the terms Update needs, between events only
      the timer moves, and when one fires the timer is rearmed in [8, 20)
      and the raiders grow by at most one raid. */
  method SchedulerPhase(g: Game, dt: real, e: EventDraws)
    requires ValidEventDraws(e)
    modifies g
    ensures g.Abs() == EventsAfter(old(g.Abs()), dt, e)
    ensures g.Abs() == old(g.Abs()).(raiders := g.raiders, animals := g.animals, weather := g.weather,
                                     nextEventInMinutes := g.nextEventInMinutes, nextEntityId := g.nextEntityId)
    ensures |g.animals| == |old(g.animals)| && g.nextEntityId >= old(g.nextEntityId)
    ensures var left := old(g.nextEventInMinutes) - dt * 60.0;
      if left > 0.0 then
        && g.nextEventInMinutes == left && g.weather == old(g.weather)
        && g.nextEntityId == old(g.nextEntityId) && g.raiders == old(g.raiders)
      else
        && 8.0 <= g.nextEventInMinutes < 20.0
        && |g.raiders| <= |old(g.raiders)| + RaidSize(|old(g.colonists)|)
  {
    ghost var s0 := g.Abs();
    UpdateEvents(g, dt, e);
    EventTimer(s0, dt, e);
  }

  /** The rest of a frame after the raiders have acted: the raider filter,
      the animal loop (traced by `sa`), hauling (the colonists `hauled`
      are the ones HaulInv relates to those before it) and the contact
      pass. */
  method LatePhase(g: Game, dt: real, u: FrameDraws) returns (ghost sa: seq<State>, ghost hauled: seq<Pawn>)
    requires ValidFrameDraws(u)
    modifies g
    ensures g.Abs() == old(g.Abs()).(colonists := g.colonists, raiders := g.raiders, animals := g.animals,
                                     stockpile := g.stockpile)
    ensures |g.colonists| == |old(g.colonists)| && |g.animals| == |old(g.animals)| && |g.raiders| <= |old(g.raiders)|
    ensures forall k :: 0 <= k < |g.colonists| && !Alive(old(g.colonists[k])) ==> g.colonists[k] == old(g.colonists[k])
    ensures g.stockpile.wood >= old(g.stockpile.wood) && g.stockpile.food >= old(g.stockpile.food)
    ensures AnimalLoop(sa, dt, u) && sa[0] == old(g.Abs()).(raiders := Survivors(old(g.raiders)))
    ensures HaulInv(hauled, g.stockpile, Last(sa).colonists, Last(sa).stockpile, |hauled|)
    ensures (g.colonists, g.raiders) == ContactAfter(hauled, Last(sa).raiders, dt)
    ensures g.Abs() == Last(sa).(colonists := g.colonists, raiders := g.raiders, stockpile := g.stockpile)
  {
    SurvivorsSpec(g.raiders);
    g.raiders := Survivors(g.raiders);
    sa := AnimalPhase(g, dt, u);
    AutoHaul(g);
    hauled := g.colonists;
    Contact(g, dt);
  }

  /** The intermediate worlds of one frame: after the scheduler, the
      colonist, raider and animal loops turn by turn, and the colonists
      after hauling. */
  datatype Trace = Trace(scheduled: State, colonists: seq<State>, raiders: seq<State>, animals: seq<State>,
                         hauled: seq<Pawn>)

  /** The phases of a frame between the clock and the outcome flags, from
      `s` to `s'` through the worlds of `t`, in the order of Game.update:
      the scheduler; the colonist loop, then the raider loop; the raiders
      50 hp below zero are dropped; the animal loop; hauling; and the
      contact pass. */
  ghost predicate PhasesRan(s: State, s': State, dt: real, u: FrameDraws, t: Trace)
    requires ValidFrameDraws(u)
  {
    && t.scheduled == EventsAfter(s, dt, u.events)
    && ColonistLoop(t.colonists, dt, u) && t.colonists[0] == t.scheduled
    && RaiderLoop(t.raiders, dt) && t.raiders[0] == Last(t.colonists)
    && AnimalLoop(t.animals, dt, u) && t.animals[0] == Last(t.raiders).(raiders := Survivors(Last(t.raiders).raiders))
    && var late := Last(t.animals);
       && HaulInv(t.hauled, s'.stockpile, late.colonists, late.stockpile, |t.hauled|)
       && (s'.colonists, s'.raiders) == ContactAfter(t.hauled, late.raiders, dt)
       && s' == late.(colonists := s'.colonists, raiders := s'.raiders, stockpile := s'.stockpile)
  }

  /** One whole frame of `dt` seconds from `s` to `s'`: the clock advances
      by `dt` minutes, the phases run as PhasesRan says, and then the game
      is won once the beacon stands and lost once every colonist is dead. */
  ghost predicate FrameRan(s: State, s': State, dt: real, u: FrameDraws, t: Trace)
    requires ValidFrameDraws(u)
  {
    var before := s'.(winTriggered := s.winTriggered, lossTriggered := s.lossTriggered);
    && PhasesRan(s.(timeMinutes := s.timeMinutes + dt), before, dt, u, t)
    && s'.winTriggered == (s.winTriggered || s'.beaconBuilt)
    && s'.lossTriggered == (s.lossTriggered || forall k :: 0 <= k < |s'.colonists| ==> !Alive(s'.colonists[k]))
  }

  /** A frame is the clock, the phases and the outcome flags. */
  lemma FrameOfPhases(s: State, mid: State, s': State, dt: real, u: FrameDraws, t: Trace)
    requires ValidFrameDraws(u)
    requires PhasesRan(s.(timeMinutes := s.timeMinutes + dt), mid, dt, u, t)
    requires mid.winTriggered == s.winTriggered && mid.lossTriggered == s.lossTriggered
    requires s' == mid.(winTriggered := s'.winTriggered, lossTriggered := s'.lossTriggered)
    requires s'.winTriggered == (s.winTriggered || s'.beaconBuilt)
    requires s'.lossTriggered == (s.lossTriggered || forall k :: 0 <= k < |s'.colonists| ==> !Alive(s'.colonists[k]))
    ensures FrameRan(s, s', dt, u, t)
  {
    assert mid == s'.(winTriggered := s.winTriggered, lossTriggered := s.lossTriggered);
  }

  /** The phases of a frame, as PhasesRan relates the world before and
      after them. Across them the clock, the selection, the outcome flags,
      the number of colonists and animals, and every dead colonist are
      unchanged, the stockpile never shrinks and the beacon once built
      stays built; the event timer either just counts down, with nothing
      else the scheduler touches changed, or is rearmed. */
  method Phases(g: Game, dt: real, u: FrameDraws) returns (ghost t: Trace)
    requires g.Valid() && ValidFrameDraws(u)
    modifies g, g.tiles
    ensures g.Valid()
    ensures PhasesRan(old(g.Abs()), g.Abs(), dt, u, t)
    ensures g.timeMinutes == old(g.timeMinutes) && g.selected == old(g.selected)
    ensures g.winTriggered == old(g.winTriggered) && g.lossTriggered == old(g.lossTriggered)
    ensures |g.colonists| == |old(g.colonists)| && |g.animals| == |old(g.animals)|
    ensures forall k :: 0 <= k < |g.colonists| && !Alive(old(g.colonists[k])) ==> g.colonists[k] == old(g.colonists[k])
    ensures g.stockpile.wood >= old(g.stockpile.wood) && g.stockpile.food >= old(g.stockpile.food)
    ensures old(g.beaconBuilt) ==> g.beaconBuilt
    ensures g.nextEntityId >= old(g.nextEntityId)
    ensures var left := old(g.nextEventInMinutes) - dt * 60.0;
      if left > 0.0 then
        && g.nextEventInMinutes == left && g.weather == old(g.weather)
        && g.nextEntityId == old(g.nextEntityId) && |g.raiders| <= |old(g.raiders)|
      else
        && 8.0 <= g.nextEventInMinutes < 20.0
        && |g.raiders| <= |old(g.raiders)| + RaidSize(|old(g.colonists)|)
  {
    SchedulerPhase(g, dt, u.events);
    ghost var scheduled := g.Abs();
    var sc := ColonistPhase(g, dt, u);
    var sr := RaiderPhase(g, dt);
    var sa, hauled := LatePhase(g, dt, u);
    t := Trace(scheduled, sc, sr, sa, hauled);
  }

  /** Game.update: one frame of `dt` seconds, as FrameRan relates the
      world before and after it. Across the frame the selection, the
      number of colonists and animals, and every dead colonist are
      unchanged, the stockpile never shrinks, the beacon once built stays
      built, and the game is won once the beacon stands and lost once every
      colonist is dead. */
  method Update(g: Game, dt: real, u: FrameDraws) returns (ghost t: Trace)
    requires g.Valid() && ValidFrameDraws(u)
    modifies g, g.tiles
    ensures g.Valid()
    ensures FrameRan(old(g.Abs()), g.Abs(), dt, u, t)
    ensures g.timeMinutes == old(g.timeMinutes) + dt
    ensures g.selected == old(g.selected)
    ensures |g.colonists| == |old(g.colonists)| && |g.animals| == |old(g.animals)|
    ensures forall k :: 0 <= k < |g.colonists| && !Alive(old(g.colonists[k])) ==> g.colonists[k] == old(g.colonists[k])
    ensures g.stockpile.wood >= old(g.stockpile.wood) && g.stockpile.food >= old(g.stockpile.food)
    ensures old(g.beaconBuilt) ==> g.beaconBuilt
    ensures g.winTriggered == (old(g.winTriggered) || g.beaconBuilt)
    ensures g.lossTriggered == (old(g.lossTriggered) || forall k :: 0 <= k < |g.colonists| ==> !Alive(g.colonists[k]))
    ensures g.nextEntityId >= old(g.nextEntityId)
    ensures var left := old(g.nextEventInMinutes) - dt * 60.0;
      if left > 0.0 then
        && g.nextEventInMinutes == left && g.weather == old(g.weather)
        && g.nextEntityId == old(g.nextEntityId) && |g.raiders| <= |old(g.raiders)|
      else
        && 8.0 <= g.nextEventInMinutes < 20.0
        && |g.raiders| <= |old(g.raiders)| + RaidSize(|old(g.colonists)|)
  {
    ghost var s0 := g.Abs();
    g.timeMinutes := g.timeMinutes + dt;
    assert g.Abs() == s0.(timeMinutes := s0.timeMinutes + dt);
    t := Phases(g, dt, u);
    ghost var mid := g.Abs();
    Outcome(g);
    FrameOfPhases(s0, mid, g.Abs(), dt, u, t);
  }

  /** The win/loss check at the end of a frame: the game is won once the
      beacon stands and lost once every colonist is dead; nothing else
      changes. */
  method Outcome(g: Game)
    modifies g
    ensures g.Abs() == old(g.Abs()).(winTriggered := g.winTriggered, lossTriggered := g.lossTriggered)
    ensures g.winTriggered == (old(g.winTriggered) || g.beaconBuilt)
    ensures g.lossTriggered == (old(g.lossTriggered) || forall k :: 0 <= k < |g.colonists| ==> !Alive(g.colonists[k]))
  {
    if !g.winTriggered && g.beaconBuilt {
      g.winTriggered := true;
    }
    if !g.lossTriggered && forall k :: 0 <= k < |g.colonists| ==> !Alive(g.colonists[k]) {
      g.lossTriggered := true;
    }
  }
}
