/**
  The `Gaia` model of model.py: its parameters, the initial population (one grass patch per
  cell, then white daisies, then black daisies scattered onto free cells), one model step and
  the `run_model` loop.

  The scheduler's activation order within a step and the value of `schedule.get_mean_temp()`
  are not computed here: each step receives them as its input.
 */
module GaiaModel {
  import opened Wrappers
  import opened Grid
  import opened Agents

  /** The constructor parameters of `Gaia`. */
  datatype Params = Params(
    initialTemp: real,
    initialBlack: nat,
    initialWhite: nat,
    solarLuminosity: real,
    whiteAlbedo: real,
    blackAlbedo: real,
    surfaceAlbedo: real,
    width: nat,
    height: nat)

  /** The `max_age` of every initially scattered daisy. */
  const InitialLifespan: int := 5

  /** The model state: parameters, the world, `world_temperature` and the scheduler's step count. */
  datatype Gaia = Gaia(params: Params, world: World, worldTemperature: real, time: nat)

  function ParamDims(params: Params): Dims {
    Dims(params.width, params.height)
  }

  /** The model is consistent: every grid cell has a patch, every daisy is alive. */
  ghost predicate WellFormed(m: Gaia) {
    && m.world.dims == ParamDims(m.params)
    && Complete(m.world)
    && DaisiesLive(m.world)
  }

  /** The set of positions a sequence of draws hits. */
  function Hits(draws: seq<Pos>): set<Pos> {
    set q | q in draws
  }

  lemma {:induction false} HitsAtMost(draws: seq<Pos>)
    ensures |Hits(draws)| <= |draws|
  {
    if |draws| > 0 {
      HitsAtMost(draws[1..]);
      assert Hits(draws) == {draws[0]} + Hits(draws[1..]);
    }
  }

  // ---------------------------------------------------------------------------------------------
  // Initial population

  /** `create_grass_patch`: one patch per cell of the grid, each at `initialTemp` with the
      surface albedo, and no daisies yet. */
  function CreateGrassPatch(dims: Dims, initialTemp: real, surfaceAlbedo: real): (w: World)
    ensures w.dims == dims && Complete(w)
    ensures |w.cells| == dims.width * dims.height
    ensures forall p :: p in w.cells ==> w.cells[p] == Cell(Patch(initialTemp, surfaceAlbedo), None)
  {
    AllCellsExactly(dims);
    AllCellsCount(dims);
    var cells := map p | p in AllCells(dims) :: Cell(Patch(initialTemp, surfaceAlbedo), None);
    assert cells.Keys == AllCells(dims);
    World(dims, cells)
  }

  /** One iteration of `create_daisies`: place a fresh daisy at the drawn cell unless it already
      holds one. */
  function ScatterAt(w: World, color: Color, albedo: real, q: Pos): World
    requires Complete(w) && InBounds(w.dims, q)
  {
    if w.cells[q].daisy.None? then Place(w, q, NewDaisy(color, albedo, InitialLifespan)) else w
  }

  /** `create_daisies(agent_type, len(draws), albedo)` where `draws` are the cells the
      `randrange` pairs pick, in order. A drawn cell that already holds a daisy is skipped and no
      other cell is tried instead. */
  function CreateDaisies(w: World, color: Color, albedo: real, draws: seq<Pos>): (w': World)
    requires Complete(w)
    requires forall i :: 0 <= i < |draws| ==> InBounds(w.dims, draws[i])
    ensures w'.dims == w.dims && w'.cells.Keys == w.cells.Keys
    ensures forall q :: q in w.cells ==> w'.cells[q].patch == w.cells[q].patch
    ensures forall q :: q in w.cells && w.cells[q].daisy.Some? ==> w'.cells[q] == w.cells[q]
    ensures forall q :: q in w.cells && w.cells[q].daisy.None? && w'.cells[q].daisy.Some? ==>
              w'.cells[q].daisy.value == Daisy(color, albedo, InitialLifespan, InitialLifespan)
    ensures DaisyCells(w') == DaisyCells(w) + Hits(draws)
    decreases |draws|
  {
    if |draws| == 0 then
      w
    else
      var w1 := ScatterAt(w, color, albedo, draws[0]);
      assert Hits(draws) == {draws[0]} + Hits(draws[1..]);
      assert DaisyCells(w1) == DaisyCells(w) + {draws[0]};
      CreateDaisies(w1, color, albedo, draws[1..])
  }

  /** At most `len(draws)` daisies are added. */
  lemma CreateDaisiesAddsAtMost(w: World, color: Color, albedo: real, draws: seq<Pos>)
    requires Complete(w)
    requires forall i :: 0 <= i < |draws| ==> InBounds(w.dims, draws[i])
    ensures |DaisyCells(CreateDaisies(w, color, albedo, draws))| <= |DaisyCells(w)| + |draws|
  {
    HitsAtMost(draws);
  }

  /** The draws of both colours lie inside the grid and match the requested counts. */
  predicate ValidDraws(params: Params, whiteDraws: seq<Pos>, blackDraws: seq<Pos>) {
    && |whiteDraws| == params.initialWhite && |blackDraws| == params.initialBlack
    && (forall i :: 0 <= i < |whiteDraws| ==> InBounds(ParamDims(params), whiteDraws[i]))
    && (forall i :: 0 <= i < |blackDraws| ==> InBounds(ParamDims(params), blackDraws[i]))
  }

  /** The world `Gaia.__init__` builds: patches first, then the white daisies, then the black ones. */
  function Populate(params: Params, whiteDraws: seq<Pos>, blackDraws: seq<Pos>): (w: World)
    requires ValidDraws(params, whiteDraws, blackDraws)
    ensures w.dims == ParamDims(params) && Complete(w)
    ensures |w.cells| == params.width * params.height
    ensures forall p :: p in w.cells ==> w.cells[p].patch == Patch(params.initialTemp, params.surfaceAlbedo)
    ensures DaisyCells(w) == Hits(whiteDraws) + Hits(blackDraws)
  {
    var grass := CreateGrassPatch(ParamDims(params), params.initialTemp, params.surfaceAlbedo);
    assert DaisyCells(grass) == {};
    var whites := CreateDaisies(grass, White, params.whiteAlbedo, whiteDraws);
    CreateDaisies(whites, Black, params.blackAlbedo, blackDraws)
  }

  /** Every white draw holds a white daisy, every cell only a black draw hit holds a black one. */
  lemma PopulateColours(params: Params, whiteDraws: seq<Pos>, blackDraws: seq<Pos>)
    requires ValidDraws(params, whiteDraws, blackDraws)
    ensures var w := Populate(params, whiteDraws, blackDraws);
            forall p :: p in Hits(whiteDraws) ==>
              w.cells[p].daisy == Some(Daisy(White, params.whiteAlbedo, InitialLifespan, InitialLifespan))
    ensures var w := Populate(params, whiteDraws, blackDraws);
            forall p :: p in Hits(blackDraws) - Hits(whiteDraws) ==>
              w.cells[p].daisy == Some(Daisy(Black, params.blackAlbedo, InitialLifespan, InitialLifespan))
  {
    var grass := CreateGrassPatch(ParamDims(params), params.initialTemp, params.surfaceAlbedo);
    assert DaisyCells(grass) == {};
    var whites := CreateDaisies(grass, White, params.whiteAlbedo, whiteDraws);
    var world := CreateDaisies(whites, Black, params.blackAlbedo, blackDraws);
    forall p | p in Hits(whiteDraws)
      ensures world.cells[p].daisy == Some(Daisy(White, params.whiteAlbedo, InitialLifespan, InitialLifespan))
    {
      assert grass.cells[p].daisy.None?;
      assert p in DaisyCells(whites);
    }
    forall p | p in Hits(blackDraws) - Hits(whiteDraws)
      ensures world.cells[p].daisy == Some(Daisy(Black, params.blackAlbedo, InitialLifespan, InitialLifespan))
    {
      assert p !in DaisyCells(whites);
      assert p in DaisyCells(world);
    }
  }

  /** Every initially scattered daisy is alive. */
  lemma PopulateLive(params: Params, whiteDraws: seq<Pos>, blackDraws: seq<Pos>)
    requires ValidDraws(params, whiteDraws, blackDraws)
    ensures DaisiesLive(Populate(params, whiteDraws, blackDraws))
  {
    var w := Populate(params, whiteDraws, blackDraws);
    PopulateColours(params, whiteDraws, blackDraws);
    var white := Daisy(White, params.whiteAlbedo, InitialLifespan, InitialLifespan);
    var black := Daisy(Black, params.blackAlbedo, InitialLifespan, InitialLifespan);
    forall p | p in w.cells && w.cells[p].daisy.Some?
      ensures LiveDaisy(w.cells[p].daisy.value)
    {
      assert p in DaisyCells(w);
      if p in Hits(whiteDraws) {
        assert w.cells[p].daisy.value == white;
      } else {
        assert p in Hits(blackDraws) - Hits(whiteDraws);
        assert w.cells[p].daisy.value == black;
      }
    }
  }

  /** `Gaia.__init__`: the populated world at `initial_temp`, before the first step. */
  function InitialModel(params: Params, whiteDraws: seq<Pos>, blackDraws: seq<Pos>): (m: Gaia)
    requires ValidDraws(params, whiteDraws, blackDraws)
    ensures WellFormed(m) && m.params == params && m.time == 0
    ensures m.worldTemperature == params.initialTemp
    ensures |m.world.cells| == params.width * params.height
    ensures forall p :: p in m.world.cells ==> m.world.cells[p].patch == Patch(params.initialTemp, params.surfaceAlbedo)
    ensures DaisyCells(m.world) == Hits(whiteDraws) + Hits(blackDraws)
    ensures forall p :: p in Hits(whiteDraws) ==>
              m.world.cells[p].daisy == Some(Daisy(White, params.whiteAlbedo, InitialLifespan, InitialLifespan))
    ensures forall p :: p in Hits(blackDraws) - Hits(whiteDraws) ==>
              m.world.cells[p].daisy == Some(Daisy(Black, params.blackAlbedo, InitialLifespan, InitialLifespan))
    ensures |DaisyCells(m.world)| <= params.initialWhite + params.initialBlack
  {
    PopulateColours(params, whiteDraws, blackDraws);
    PopulateLive(params, whiteDraws, blackDraws);
    HitsAtMost(whiteDraws);
    HitsAtMost(blackDraws);
    Gaia(params, Populate(params, whiteDraws, blackDraws), params.initialTemp, 0)
  }

  // ---------------------------------------------------------------------------------------------
  // Stepping

  /** One agent activation as the scheduler performs it, with that agent's random draws. */
  datatype Activation =
    | PatchTurn(pos: Pos)
    | DaisyTurn(pos: Pos, seed: real, choice: nat)

  predicate ValidActivation(g: Dims, a: Activation) {
    InBounds(g, a.pos) && (a.DaisyTurn? ==> a.choice < |Neighborhood(g, a.pos)|)
  }

  /** The inputs of one `Gaia.step`: the activations in scheduler order and the value
      `schedule.get_mean_temp()` returns afterwards. */
  datatype StepInput = StepInput(activations: seq<Activation>, meanTemp: real)

  predicate ValidInput(g: Dims, input: StepInput) {
    forall i :: 0 <= i < |input.activations| ==> ValidActivation(g, input.activations[i])
  }

  /** One activation: `GrassPatch.step` or `Daisy.step`. A daisy turn on a cell without a daisy
      does nothing. */
  function Activate(w: World, a: Activation, env: Env): (w': World)
    requires Complete(w) && ValidActivation(w.dims, a)
    ensures w'.dims == w.dims && w'.cells.Keys == w.cells.Keys
    ensures DaisiesLive(w) ==> DaisiesLive(w')
    ensures forall r :: r in w.cells && w.cells[r].daisy.Some? && !(a.DaisyTurn? && a.pos == r) ==>
              w'.cells[r].daisy == w.cells[r].daisy
    ensures a.DaisyTurn? && w.cells[a.pos].daisy.Some? ==>
              w'.cells[a.pos].daisy == Age(w.cells[a.pos].daisy.value)
  {
    match a
    case PatchTurn(p) => PatchStep(w, p, env)
    case DaisyTurn(p, seed, choice) =>
      if w.cells[p].daisy.Some? then DaisyStep(w, p, env, seed, choice) else w
  }

  /** `schedule.step()`: the activations in order, each seeing the effects of those before it. */
  function ScheduleStep(w: World, acts: seq<Activation>, env: Env): (w': World)
    requires Complete(w)
    requires forall i :: 0 <= i < |acts| ==> ValidActivation(w.dims, acts[i])
    ensures w'.dims == w.dims && w'.cells.Keys == w.cells.Keys
    decreases |acts|
  {
    if |acts| == 0 then w else ScheduleStep(Activate(w, acts[0], env), acts[1..], env)
  }

  /** Every activation keeps the daisies alive and the grid complete. */
  lemma {:induction false} ScheduleStepKeepsDaisiesLive(w: World, acts: seq<Activation>, env: Env)
    requires Complete(w) && DaisiesLive(w)
    requires forall i :: 0 <= i < |acts| ==> ValidActivation(w.dims, acts[i])
    ensures DaisiesLive(ScheduleStep(w, acts, env))
    decreases |acts|
  {
    if |acts| > 0 {
      var w1 := Activate(w, acts[0], env);
      ScheduleStepKeepsDaisiesLive(w1, acts[1..], env);
    }
  }

  /** A daisy is only ever aged or removed by its own turn: a scheduler pass that gives the
      daisy at `r` no turn leaves it exactly as it was. */
  lemma {:induction false} ScheduleStepKeepsIdleDaisy(w: World, acts: seq<Activation>, env: Env, r: Pos)
    requires Complete(w)
    requires forall i :: 0 <= i < |acts| ==> ValidActivation(w.dims, acts[i])
    requires r in w.cells && w.cells[r].daisy.Some?
    ensures (forall i :: 0 <= i < |acts| ==> !(acts[i].DaisyTurn? && acts[i].pos == r)) ==>
              ScheduleStep(w, acts, env).cells[r].daisy == w.cells[r].daisy
    decreases |acts|
  {
    if |acts| > 0 && forall i :: 0 <= i < |acts| ==> !(acts[i].DaisyTurn? && acts[i].pos == r) {
      var w1 := Activate(w, acts[0], env);
      assert !(acts[0].DaisyTurn? && acts[0].pos == r);
      ScheduleStepKeepsIdleDaisy(w1, acts[1..], env, r);
      assert forall i :: 0 <= i < |acts[1..]| ==> acts[1..][i] == acts[i + 1];
    }
  }

  /** `Gaia.step`: one scheduler step, then `world_temperature` takes the mean temperature. */
  function Step(m: Gaia, input: StepInput, ln: real -> real): (m': Gaia)
    requires Complete(m.world) && ValidInput(m.world.dims, input)
    ensures m'.params == m.params && m'.world.dims == m.world.dims
    ensures m'.time == m.time + 1
    ensures m'.worldTemperature == input.meanTemp
  {
    var world := ScheduleStep(m.world, input.activations, Env(m.params.solarLuminosity, ln));
    Gaia(m.params, world, input.meanTemp, m.time + 1)
  }

  lemma StepKeepsWellFormed(m: Gaia, input: StepInput, ln: real -> real)
    requires WellFormed(m) && ValidInput(m.world.dims, input)
    ensures WellFormed(Step(m, input, ln))
  {
    ScheduleStepKeepsDaisiesLive(m.world, input.activations, Env(m.params.solarLuminosity, ln));
  }

  /** `run_model(len(inputs))`: `Gaia.step` once per input, in sequence. */
  function RunModel(m: Gaia, inputs: seq<StepInput>, ln: real -> real): (m': Gaia)
    requires WellFormed(m)
    requires forall i :: 0 <= i < |inputs| ==> ValidInput(ParamDims(m.params), inputs[i])
    ensures WellFormed(m') && m'.params == m.params
    ensures m'.time == m.time + |inputs|
    ensures |inputs| == 0 ==> m' == m
    ensures |inputs| > 0 ==> m'.worldTemperature == inputs[|inputs| - 1].meanTemp
    decreases |inputs|
  {
    if |inputs| == 0 then
      m
    else
      StepKeepsWellFormed(m, inputs[0], ln);
      RunModel(Step(m, inputs[0], ln), inputs[1..], ln)
  }

  /** Running `a` steps and then `b` steps is running `a + b` steps. */
  lemma {:induction false} RunModelSplit(m: Gaia, a: seq<StepInput>, b: seq<StepInput>, ln: real -> real)
    requires WellFormed(m)
    requires forall i :: 0 <= i < |a| ==> ValidInput(ParamDims(m.params), a[i])
    requires forall i :: 0 <= i < |b| ==> ValidInput(ParamDims(m.params), b[i])
    ensures RunModel(m, a + b, ln) == RunModel(RunModel(m, a, ln), b, ln)
    decreases |a|
  {
    if |a| == 0 {
      assert a + b == b;
    } else {
      var m1 := Step(m, a[0], ln);
      StepKeepsWellFormed(m, a[0], ln);
      assert (a + b)[1..] == a[1..] + b;
      assert RunModel(m, a + b, ln) == RunModel(m1, a[1..] + b, ln);
      assert RunModel(m, a, ln) == RunModel(m1, a[1..], ln);
      RunModelSplit(m1, a[1..], b, ln);
    }
  }

}
