/**
  The Daisyworld agents of agents.py: grass patches that hold a local temperature, and white or
  black daisies that heat their patch, seed a neighbouring cell and age.

  The world is one immutable value: a map from each cell to its grass patch and its optional
  daisy. A daisy is registered with the grid and the scheduler exactly when it sits in the daisy
  slot of its cell, so placing or removing it updates both registrations at once. `math.log` is
  the parameter `ln` of the environment, and the random draws are arguments of the step functions.
 */
module Agents {
  import opened Wrappers
  import opened Grid
  import opened Stats

  /** The two daisy classes, `WhiteDaisy` and `BlackDaisy`. */
  datatype Color = White | Black

  datatype Daisy = Daisy(color: Color, albedo: real, maxAge: int, remainingLifespan: int)

  datatype Patch = Patch(temperature: real, albedo: real)

  /** One grid cell: its grass patch and at most one daisy. */
  datatype Cell = Cell(patch: Patch, daisy: Option<Daisy>)

  datatype World = World(dims: Dims, cells: map<Pos, Cell>)

  /** What agents read from the model: `solar_luminosity`, and `math.log` left uninterpreted. */
  datatype Env = Env(solarLuminosity: real, ln: real -> real)

  /** Every cell of the grid, and nothing else, holds a patch. */
  ghost predicate Complete(w: World) {
    forall p :: p in w.cells <==> InBounds(w.dims, p)
  }

  /** Live daisies have a lifespan countdown between 0 and their maximum age. */
  predicate LiveDaisy(d: Daisy) {
    0 <= d.remainingLifespan <= d.maxAge
  }

  predicate DaisiesLive(w: World) {
    forall p :: p in w.cells && w.cells[p].daisy.Some? ==> LiveDaisy(w.cells[p].daisy.value)
  }

  /** The cells that currently hold a daisy. */
  function DaisyCells(w: World): set<Pos> {
    set p | p in w.cells && w.cells[p].daisy.Some?
  }

  function Temp(w: World, p: Pos): real
    requires p in w.cells
  {
    w.cells[p].patch.temperature
  }

  /** `w'` differs from `w` in the temperature of the patch at `p` at most. */
  predicate OnlyTempAt(w: World, w': World, p: Pos) {
    && w'.dims == w.dims
    && w'.cells.Keys == w.cells.Keys
    && (forall q :: q in w.cells && q != p ==> w'.cells[q] == w.cells[q])
    && (p in w.cells ==>
          w'.cells[p].daisy == w.cells[p].daisy && w'.cells[p].patch.albedo == w.cells[p].patch.albedo)
  }

  function WithTemp(w: World, p: Pos, t: real): (w': World)
    requires p in w.cells
    ensures OnlyTempAt(w, w', p)
    ensures Temp(w', p) == t
  {
    w.(cells := w.cells[p := w.cells[p].(patch := w.cells[p].patch.(temperature := t))])
  }

  // ---------------------------------------------------------------------------------------------
  // Daisy construction

  /** `Daisy.__init__`: the countdown starts at `max_age`. */
  function NewDaisy(color: Color, albedo: real, maxAge: int): Daisy {
    Daisy(color, albedo, maxAge, maxAge)
  }

  /** `WhiteDaisy/BlackDaisy._create_offspring`: same class, albedo and maximum age as the parent. */
  function Offspring(parent: Daisy): Daisy {
    NewDaisy(parent.color, parent.albedo, parent.maxAge)
  }

  // ---------------------------------------------------------------------------------------------
  // Patch temperature

  /** The heating a patch receives from `absorbed` luminosity. */
  function Heating(absorbed: real, ln: real -> real): real {
    if absorbed > 0.0 then 72.0 * ln(absorbed) + 80.0 else 80.0
  }

  /** Without absorbed light the heating is exactly 80, whatever the logarithm is. */
  lemma HeatingInTheDark(absorbed: real, ln: real -> real, ln': real -> real)
    requires absorbed <= 0.0
    ensures Heating(absorbed, ln) == 80.0 == Heating(absorbed, ln')
  {
  }

  /** The one-step blend of the old temperature towards the heating value. */
  function Blend(current: real, heating: real): (t: real)
    ensures current <= t <= heating || heating <= t <= current
    ensures t - current == heating - t
  {
    (current + heating) / 2.0
  }

  /** `_diffuse`'s default `degree`. */
  const DiffusionDegree: real := 0.5

  /** The current temperatures of the patches around `p`. */
  function NeighborTemps(w: World, p: Pos): (ts: seq<real>)
    requires Complete(w) && InBounds(w.dims, p)
    ensures |ts| == |Neighborhood(w.dims, p)| > 0
    ensures forall i :: 0 <= i < |ts| ==> ts[i] == Temp(w, Neighborhood(w.dims, p)[i])
  {
    var nb := Neighborhood(w.dims, p);
    seq(|nb|, i requires 0 <= i < |nb| => Temp(w, nb[i]))
  }

  /** `GrassPatch._diffuse(degree)`: keep `degree` of the own temperature and take the rest from
      the mean of the neighbours' current temperatures; only the own patch is written. */
  function Diffuse(w: World, p: Pos, degree: real): (w': World)
    requires Complete(w) && InBounds(w.dims, p)
    ensures OnlyTempAt(w, w', p)
  {
    WithTemp(w, p, Weighted(degree, Temp(w, p), Mean(NeighborTemps(w, p))))
  }

  /** A diffusion weight in `[0, 1]` keeps the temperature within any bounds that hold for the
      patch and all its neighbours. */
  lemma DiffuseWithin(w: World, p: Pos, degree: real, lo: real, hi: real)
    requires Complete(w) && InBounds(w.dims, p)
    requires 0.0 <= degree <= 1.0
    requires lo <= Temp(w, p) <= hi
    requires forall q :: q in Neighborhood(w.dims, p) ==> lo <= Temp(w, q) <= hi
    ensures lo <= Temp(Diffuse(w, p, degree), p) <= hi
  {
    var ts := NeighborTemps(w, p);
    assert AllWithin(ts, lo, hi) by {
      var nb := Neighborhood(w.dims, p);
      forall i | 0 <= i < |ts| ensures lo <= ts[i] <= hi {
        assert nb[i] in nb;
      }
    }
    MeanWithin(ts, lo, hi);
    ConvexWithin(degree, Temp(w, p), Mean(ts), lo, hi);
  }

  /** `GrassPatch.set_local_temperature`: blend towards the heating value, then diffuse. */
  function SetLocalTemperature(w: World, p: Pos, absorbed: real, ln: real -> real): (w': World)
    requires Complete(w) && InBounds(w.dims, p)
    ensures OnlyTempAt(w, w', p)
  {
    var blended := WithTemp(w, p, Blend(Temp(w, p), Heating(absorbed, ln)));
    Diffuse(blended, p, DiffusionDegree)
  }

  /** The new temperature of the patch lies within any bounds that hold for its old temperature,
      the heating value and the temperatures of its neighbours. */
  lemma SetLocalTemperatureWithin(w: World, p: Pos, absorbed: real, ln: real -> real, lo: real, hi: real)
    requires Complete(w) && InBounds(w.dims, p)
    requires lo <= Temp(w, p) <= hi
    requires lo <= Heating(absorbed, ln) <= hi
    requires forall q :: q in Neighborhood(w.dims, p) ==> lo <= Temp(w, q) <= hi
    ensures lo <= Temp(SetLocalTemperature(w, p, absorbed, ln), p) <= hi
  {
    var blended := WithTemp(w, p, Blend(Temp(w, p), Heating(absorbed, ln)));
    forall q | q in Neighborhood(blended.dims, p) ensures lo <= Temp(blended, q) <= hi {
      assert q in Neighborhood(w.dims, p);
    }
    DiffuseWithin(blended, p, DiffusionDegree, lo, hi);
  }

  /** A patch already at the temperature `t` of its heating value and of all its neighbours
      stays at `t`: the uniform state is a fixed point of the update. */
  lemma SetLocalTemperatureSteady(w: World, p: Pos, absorbed: real, ln: real -> real, t: real)
    requires Complete(w) && InBounds(w.dims, p)
    requires Temp(w, p) == t && Heating(absorbed, ln) == t
    requires forall q :: q in Neighborhood(w.dims, p) ==> Temp(w, q) == t
    ensures Temp(SetLocalTemperature(w, p, absorbed, ln), p) == t
  {
    SetLocalTemperatureWithin(w, p, absorbed, ln, t, t);
  }

  /** `GrassPatch.step`: a bare patch heats itself from the surface albedo; a patch under a
      daisy is left to the daisy. */
  function PatchStep(w: World, p: Pos, env: Env): (w': World)
    requires Complete(w) && InBounds(w.dims, p)
    ensures OnlyTempAt(w, w', p)
    ensures w.cells[p].daisy.Some? ==> w' == w
  {
    if w.cells[p].daisy.None? then
      SetLocalTemperature(w, p, (1.0 - w.cells[p].patch.albedo) * env.solarLuminosity, env.ln)
    else
      w
  }

  // ---------------------------------------------------------------------------------------------
  // Daisy behaviour

  /** The probability of seeding at local temperature `t`. */
  function SeedThreshold(t: real): real {
    0.1457 * t - 0.0032 * (t * t) - 0.6443
  }

  /** Outside the band `(4, 41)` the threshold is negative, so no draw from `[0, 1)` seeds. */
  lemma ThresholdNegativeOutsideBand(t: real)
    requires t <= 4.0 || t >= 41.0
    ensures SeedThreshold(t) < 0.0
  {
    if t >= 41.0 {
      var d := t - 41.0;
      assert t * t == 1681.0 + 82.0 * d + d * d;
      assert d * d >= 0.0;
    } else {
      assert t * t >= 0.0;
    }
  }

  /** Between 21 and 24.5 degrees the threshold exceeds 1, so every draw from `[0, 1)` is below it. */
  lemma {:induction false} ThresholdAboveOne(t: real)
    requires 21.0 <= t <= 24.5
    ensures SeedThreshold(t) > 1.0
  {
    var d := t - 22.75;
    assert t * t == d * d + 45.5 * d + 517.5625;
    if d >= 0.0 {
      assert d * d <= 1.75 * d;
    } else {
      assert d * d <= 1.75 * (-d);
    }
    assert d * d <= 3.0625;
  }

  /** `Daisy.change_local_temperature`: the daisy's albedo sets the light its patch absorbs. */
  function ChangeLocalTemperature(w: World, p: Pos, env: Env): (w': World)
    requires Complete(w) && InBounds(w.dims, p) && w.cells[p].daisy.Some?
    ensures OnlyTempAt(w, w', p)
  {
    var d := w.cells[p].daisy.value;
    SetLocalTemperature(w, p, (1.0 - d.albedo) * env.solarLuminosity, env.ln)
  }

  /** `MultiGrid.place_agent` together with `schedule.add`: no vacancy check of its own. */
  function Place(w: World, q: Pos, d: Daisy): World
    requires q in w.cells
  {
    w.(cells := w.cells[q := w.cells[q].(daisy := Some(d))])
  }

  /** The neighbour picked by the draw `choice`. */
  function ChosenCell(w: World, p: Pos, choice: nat): Pos
    requires InBounds(w.dims, p)
    requires choice < |Neighborhood(w.dims, p)|
  {
    Neighborhood(w.dims, p)[choice]
  }

  /** `Daisy.spawn` with the draws `seed` (from `random.random()`) and `choice` (the index
      `random.choice` picks in the neighbourhood): an offspring is placed on the chosen neighbour
      only if the draw is below the threshold and that cell holds no daisy. */
  function Spawn(w: World, p: Pos, seed: real, choice: nat): (w': World)
    requires Complete(w) && InBounds(w.dims, p) && w.cells[p].daisy.Some?
    requires choice < |Neighborhood(w.dims, p)|
    ensures w'.dims == w.dims && w'.cells.Keys == w.cells.Keys
    ensures forall q :: q in w.cells ==> w'.cells[q].patch == w.cells[q].patch
    ensures forall q :: q in w.cells && q != ChosenCell(w, p, choice) ==> w'.cells[q] == w.cells[q]
    ensures forall q :: q in w.cells && w.cells[q].daisy.Some? ==> w'.cells[q] == w.cells[q]
  {
    var parent := w.cells[p].daisy.value;
    if seed < SeedThreshold(Temp(w, p)) then
      var q := ChosenCell(w, p, choice);
      if w.cells[q].daisy.None? then Place(w, q, Offspring(parent)) else w
    else
      w
  }

  /** `Daisy.check_lifespan` on the daisy record: the countdown drops by exactly one and the
      daisy is gone once it is negative. */
  function Age(d: Daisy): Option<Daisy> {
    var left := d.remainingLifespan - 1;
    if left < 0 then None else Some(d.(remainingLifespan := left))
  }

  /** The daisy after `n` of its own steps, or `None` once it has been removed. */
  function AgeSteps(d: Daisy, n: nat): Option<Daisy>
    decreases n
  {
    if n == 0 then Some(d)
    else match Age(d)
      case None => None
      case Some(d') => AgeSteps(d', n - 1)
  }

  /** A daisy with `k` steps left survives its next `k` steps, with its countdown lowered by one
      per step, and is removed on the step after those: never earlier, never later. */
  lemma {:induction false} Lifecycle(d: Daisy, n: nat)
    requires d.remainingLifespan >= 0
    ensures n <= d.remainingLifespan ==>
              AgeSteps(d, n) == Some(d.(remainingLifespan := d.remainingLifespan - n))
    ensures n > d.remainingLifespan ==> AgeSteps(d, n) == None
    decreases n
  {
    if n > 0 {
      if d.remainingLifespan == 0 {
        assert Age(d) == None;
      } else {
        var d' := d.(remainingLifespan := d.remainingLifespan - 1);
        assert Age(d) == Some(d');
        Lifecycle(d', n - 1);
        assert d'.(remainingLifespan := d'.remainingLifespan - (n - 1))
            == d.(remainingLifespan := d.remainingLifespan - n);
      }
    }
  }

  /** A daisy born with `max_age` is removed on exactly its `(max_age + 1)`-th step. */
  lemma NewbornLifetime(color: Color, albedo: real, maxAge: nat)
    ensures AgeSteps(NewDaisy(color, albedo, maxAge), maxAge).Some?
    ensures AgeSteps(NewDaisy(color, albedo, maxAge), maxAge).value.remainingLifespan == 0
    ensures AgeSteps(NewDaisy(color, albedo, maxAge), maxAge + 1) == None
  {
    Lifecycle(NewDaisy(color, albedo, maxAge), maxAge);
    Lifecycle(NewDaisy(color, albedo, maxAge), maxAge + 1);
  }

  /** Ages the daisy at `p`, removing it from grid and schedule when its countdown goes negative. */
  function CheckLifespan(w: World, p: Pos): (w': World)
    requires p in w.cells && w.cells[p].daisy.Some?
    ensures w'.dims == w.dims && w'.cells.Keys == w.cells.Keys
    ensures forall q :: q in w.cells && q != p ==> w'.cells[q] == w.cells[q]
    ensures w'.cells[p].patch == w.cells[p].patch
  {
    w.(cells := w.cells[p := w.cells[p].(daisy := Age(w.cells[p].daisy.value))])
  }

  /** Whether the daisy step seeds: the threshold is taken at the temperature the heating phase
      just produced, and the chosen neighbour must be free of daisies. */
  predicate Seeds(w: World, p: Pos, env: Env, seed: real, choice: nat)
    requires Complete(w) && InBounds(w.dims, p) && w.cells[p].daisy.Some?
    requires choice < |Neighborhood(w.dims, p)|
  {
    && seed < SeedThreshold(Temp(ChangeLocalTemperature(w, p, env), p))
    && w.cells[ChosenCell(w, p, choice)].daisy.None?
  }

  /** `Daisy.step`: heat the own patch, then attempt to seed, then age.

      Its own patch takes the heated temperature and every other patch is only read. Its own
      record ages by one step. The chosen neighbour receives a fresh daisy with the parent's
      colour, albedo and maximum age exactly when the step seeds, and otherwise no cell gains a
      daisy. No other daisy is replaced or removed, and live daisies stay live. */
  function DaisyStep(w: World, p: Pos, env: Env, seed: real, choice: nat): (w': World)
    requires Complete(w) && InBounds(w.dims, p) && w.cells[p].daisy.Some?
    requires choice < |Neighborhood(w.dims, p)|
    ensures w'.dims == w.dims && w'.cells.Keys == w.cells.Keys
    ensures w'.cells[p].patch == ChangeLocalTemperature(w, p, env).cells[p].patch
    ensures w'.cells[p].daisy == Age(w.cells[p].daisy.value)
    ensures forall r :: r in w.cells && r != p ==> w'.cells[r].patch == w.cells[r].patch
    ensures forall r :: r in w.cells && r != p && r != ChosenCell(w, p, choice) ==>
              w'.cells[r].daisy == w.cells[r].daisy
    ensures forall r :: r in w.cells && r != p && w.cells[r].daisy.Some? ==>
              w'.cells[r].daisy == w.cells[r].daisy
    ensures Seeds(w, p, env, seed, choice) ==>
              var d := w.cells[p].daisy.value;
              ChosenCell(w, p, choice) != p &&
              w'.cells[ChosenCell(w, p, choice)].daisy == Some(Daisy(d.color, d.albedo, d.maxAge, d.maxAge))
    ensures !Seeds(w, p, env, seed, choice) ==> DaisyCells(w') <= DaisyCells(w)
    ensures 0.0 <= seed && SeedThreshold(Temp(ChangeLocalTemperature(w, p, env), p)) <= 0.0 ==>
              DaisyCells(w') <= DaisyCells(w)
    ensures DaisiesLive(w) ==> DaisiesLive(w')
  {
    var heated := ChangeLocalTemperature(w, p, env);
    var q := ChosenCell(w, p, choice);
    assert ChosenCell(heated, p, choice) == q;
    var seeded := Spawn(heated, p, seed, choice);
    assert seeded.cells[p] == heated.cells[p];
    var w' := CheckLifespan(seeded, p);
    assert !Seeds(w, p, env, seed, choice) ==> seeded == heated;
    assert DaisyCells(w') <= DaisyCells(seeded) by {
      forall r | r in DaisyCells(w') ensures r in DaisyCells(seeded) {
        if r == p {
          assert seeded.cells[p].daisy.Some?;
        } else {
          assert w'.cells[r] == seeded.cells[r];
        }
      }
    }
    assert DaisyCells(heated) == DaisyCells(w) by {
      forall r | r in w.cells ensures heated.cells[r].daisy == w.cells[r].daisy {}
    }
    w'
  }

  /** A daisy whose patch heats to at most 4 or at least 41 degrees never seeds: with a draw in
      `[0, 1)` no cell gains a daisy. */
  lemma NoSeedingOutsideBand(w: World, p: Pos, env: Env, seed: real, choice: nat)
    requires Complete(w) && InBounds(w.dims, p) && w.cells[p].daisy.Some?
    requires choice < |Neighborhood(w.dims, p)|
    requires 0.0 <= seed
    ensures var t := Temp(ChangeLocalTemperature(w, p, env), p);
            t <= 4.0 || t >= 41.0 ==> DaisyCells(DaisyStep(w, p, env, seed, choice)) <= DaisyCells(w)
  {
    var t := Temp(ChangeLocalTemperature(w, p, env), p);
    if t <= 4.0 || t >= 41.0 {
      ThresholdNegativeOutsideBand(t);
    }
  }

  /** A daisy whose patch heats to between 21 and 24.5 degrees seeds whenever its chosen
      neighbour is free, whatever the draw from `[0, 1)`. */
  lemma SeedsInSaturatedBand(w: World, p: Pos, env: Env, seed: real, choice: nat)
    requires Complete(w) && InBounds(w.dims, p) && w.cells[p].daisy.Some?
    requires choice < |Neighborhood(w.dims, p)|
    requires 0.0 <= seed < 1.0
    ensures var t := Temp(ChangeLocalTemperature(w, p, env), p);
            21.0 <= t <= 24.5 && w.cells[ChosenCell(w, p, choice)].daisy.None? ==>
              Seeds(w, p, env, seed, choice)
  {
    var t := Temp(ChangeLocalTemperature(w, p, env), p);
    if 21.0 <= t <= 24.5 {
      ThresholdAboveOne(t);
    }
  }

}
