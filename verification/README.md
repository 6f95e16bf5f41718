# Daisyworld agents in Dafny

This project models the core of a Mesa implementation of Daisyworld. A toroidal grid of grass
patches carries local temperatures. White and black daisies sit on some patches. Each daisy heats
its own patch according to its albedo. It may then seed a neighbouring free cell, with a
probability that is a quadratic function of the local temperature. Finally it ages, and it is
removed once its lifespan countdown goes negative. A bare patch heats itself from the surface
albedo. Every heating is followed by diffusion with the eight neighbours.

The model is functional. A `World` is an immutable map from each grid cell to a `Cell`. A cell
holds one grass `Patch` (temperature, albedo) and an `Option<Daisy>`. So "exactly one patch per
cell" is the map's domain (`Complete`). "At most one daisy per cell" is the option slot. A daisy
is on the grid and in the schedule exactly when it occupies its cell's daisy slot, so adding and
removing always touch both registrations together.

`math.log` is the parameter `ln` of `Agents.Env`. All random draws are arguments:

- the `random.random()` seed of a daisy step;
- the index `random.choice` picks in the neighbourhood;
- the `randrange` cells of `create_daisies`;
- the scheduler's activation order;
- the value `schedule.get_mean_temp()` returns.

Temperatures and albedos are `real`s.

Modules, one per file:

- `Wrappers` (wrappers.dfy): `Option`.
- `Grid` (grid.dfy): cells, torus wrap-around and the Moore neighbourhood.
- `Stats` (stats.dfy): sums, means and weighted averages of reals.
- `Agents` (agents.dfy): agents.py.
- `GaiaModel` (gaia.dfy): model.py.

Points of the code worth knowing when reading the model:

- Diffusion reads the neighbours' current temperatures (agents.py:135). So a patch activated
  later in a step sees temperatures written earlier in that step. Diffusion runs after every
  heating, including a daisy's (agents.py:103-117).
- The seeding threshold (agents.py:39-42) is a quadratic in the local patch temperature that the
  heating phase of the same step has just produced.

Draws come from two generators. The seed draw at agents.py:44 uses the module-level
`random.random()`, not the model's `self.random` that drives the other draws. So seeding the
model alone does not make a run reproducible. The model treats every draw as an input, so this
does not affect it.

## Model

| member | source | states |
|---|---|---|
| `GaiaModel.CreateGrassPatch` | model.py:78-82 | the world holds exactly width×height cells, every grid cell has a patch at `initial_temp` with the surface albedo, and there are no daisies |
| `Grid.AllCellsCount` | model.py:79 | the grid enumerated by `coord_iter` has exactly width×height distinct cells |
| `Grid.Neighborhood` | agents.py:46-48 | the torus neighbourhood has between 1 and 8 distinct cells, all inside the grid; the lower bound reflects the small-grid behaviour listed under Left out |
| `Grid.NeighborhoodMembership` | agents.py:126-128 | a cell is in the neighbourhood iff it is `(x+dx mod width, y+dy mod height)` for one of the eight non-zero offsets |
| `Grid.NeighborhoodHasEight` | model.py:56 | on a torus at least 3×3, every cell has exactly eight distinct neighbours, one per non-zero offset |
| `Grid.CentreExcluded` | agents.py:46-48 | on a torus at least 2×2, a cell is never its own neighbour (`include_center=False`) |
| `Grid.Dedup` | agents.py:46-48 | removing repeated coordinates keeps exactly the same set of cells, leaves no repeats, and leaves an already repeat-free list unchanged |
| `Stats.MeanWithin` | agents.py:135-136 | the mean of the neighbour temperatures lies within any bounds that hold for all of them |
| `Stats.ConvexWithin` | agents.py:136 | the weighted blend with weight in [0,1] of two values in [lo,hi] stays in [lo,hi] |
| `Agents.HeatingInTheDark` | agents.py:112-115 | with non-positive absorbed luminosity the heating is exactly 80, and the logarithm is not consulted |
| `Agents.Blend` | agents.py:116 | `(old + heating)/2` lies between `old` and `heating`, at equal distance from both |
| `Agents.Diffuse` | agents.py:119-136 | diffusion writes only the temperature of its own patch; neighbours, albedos and daisies are untouched |
| `Agents.DiffuseWithin` | agents.py:119-136 | for `degree` in [0,1], the diffused temperature lies within any bounds on the patch's own and all its neighbours' temperatures |
| `Agents.SetLocalTemperature` | agents.py:103-117 | heating plus diffusion writes only the receiving patch's temperature |
| `Agents.SetLocalTemperatureWithin` | agents.py:103-117 | the new temperature lies within any bounds on the old temperature, the heating value and the neighbours' temperatures |
| `Agents.SetLocalTemperatureSteady` | agents.py:112-136 | a patch whose temperature equals its heating value and all its neighbours' temperatures keeps that temperature |
| `Agents.PatchStep` | agents.py:94-101 | a grass step changes at most its own patch's temperature, and changes nothing when a daisy occupies the cell |
| `Agents.ChangeLocalTemperature` | agents.py:20-29 | a daisy's heating writes only its own patch's temperature |
| `Agents.ThresholdNegativeOutsideBand` | agents.py:39-42 | the seeding threshold is negative for temperatures at most 4 or at least 41 |
| `Agents.ThresholdAboveOne` | agents.py:39-42 | for local temperatures between 21 and 24.5 the threshold exceeds 1 |
| `Agents.SeedsInSaturatedBand` | agents.py:39-45 | a daisy whose patch heats to between 21 and 24.5 degrees seeds on every draw in [0,1) when its chosen neighbour is free |
| `Agents.Spawn` | agents.py:31-55 | seeding leaves every patch alone, changes no cell other than the chosen neighbour, and never overwrites an existing daisy |
| `Agents.CheckLifespan` | agents.py:57-65 | aging touches only the daisy slot of the daisy's own cell |
| `Agents.Lifecycle` | agents.py:57-65 | with k steps left, a daisy survives its next k steps with its countdown lowered by exactly one per step, and is removed on step k+1 |
| `Agents.NewbornLifetime` | agents.py:8-13 | a daisy born with `max_age` is alive with countdown 0 after `max_age` steps and removed on its (`max_age`+1)-th step |
| `Agents.DaisyStep` | agents.py:15-18 | a daisy step gives the own patch the heated temperature and leaves every other patch alone. It ages the daisy by one step. The chosen neighbour gets a daisy with the parent's colour, albedo and `max_age` and a full countdown when the draw is below the threshold at the just-heated temperature and that cell is free; otherwise no cell gains a daisy. No other daisy is replaced or removed, a draw in [0,1) against a non-positive threshold adds no daisy, and live daisies stay live |
| `Agents.NoSeedingOutsideBand` | agents.py:39-45 | with a draw in [0,1), a daisy whose patch heats to at most 4 or at least 41 degrees adds no daisy anywhere |
| `GaiaModel.CreateDaisies` | model.py:84-94 | scattering never changes a patch or an existing daisy. A newly occupied cell holds a fresh daisy with the given colour and albedo and `max_age = remaining_lifespan = 5`. The occupied cells afterwards are exactly the ones before plus the drawn ones |
| `GaiaModel.CreateDaisiesAddsAtMost` | model.py:86-94 | at most `initial_num` daisies are added |
| `GaiaModel.InitialModel` | model.py:41-71 | construction gives `world_temperature = initial_temp`, width×height patches at `initial_temp`, daisies on exactly the drawn cells, white ones wherever a white draw landed and black ones only on cells no white draw hit, all alive, and at most `initial_white + initial_black` of them |
| `GaiaModel.Populate` | model.py:68-71 | patches first, then white, then black scattering leaves one patch per cell at `initial_temp` and daisies on exactly the cells some draw hit |
| `GaiaModel.PopulateColours` | model.py:69-71 | white daisies are scattered first, so every white draw holds a white daisy and a black daisy only stands where no white draw landed |
| `GaiaModel.PopulateLive` | model.py:69-71 | every initially scattered daisy has its countdown within [0, `max_age`] |
| `GaiaModel.Activate` | model.py:101 | one agent activation keeps the grid and every daisy's countdown within [0, `max_age`]; it ages the daisy whose turn it is by one step, and leaves every other existing daisy as it was |
| `GaiaModel.ScheduleStepKeepsIdleDaisy` | model.py:101 | a scheduler pass that gives a daisy no turn leaves it exactly as it was, so a daisy is never aged or removed by another agent's turn |
| `GaiaModel.ScheduleStepKeepsDaisiesLive` | model.py:101 | a scheduler pass over any valid activation order keeps every daisy's countdown within [0, `max_age`] |
| `GaiaModel.Step` | model.py:96-105 | a model step keeps the parameters and the grid, advances the step count by one, and sets `world_temperature` to the scheduler's mean temperature |
| `GaiaModel.StepKeepsWellFormed` | model.py:96-105 | a model step keeps one patch per cell and only live daisies |
| `GaiaModel.RunModel` | model.py:116-128 | `run_model(n)` performs exactly n steps; for n > 0 it leaves `world_temperature` at the last step's mean, for n = 0 it changes nothing |
| `GaiaModel.RunModelSplit` | model.py:127-128 | running a steps then b steps is the same as running a+b steps |

## Left out

- The scheduler is `RandomActivationByTypeFiltered` from scheduler.py, which is not part of this model. The activation order within a step is an input (`GaiaModel.StepInput`). So the snapshot rule is not modelled: a daisy born during a step is not activated in that step. The same holds for `get_type_count`.
- `get_mean_temp` is an input of each step, because its definition lives in scheduler.py.
- `GaiaModel.ScheduleStep`: a daisy turn on a cell that holds no daisy does nothing. The real scheduler never issues such a turn.
- Mesa itself is not modelled: `MultiGrid`, `DataCollector`, `mesa.Agent`/`mesa.Model` and `next_id`. Daisies are identified by their cell, which they never leave. Only placement, removal and torus neighbours are modelled.
- `math.log` is an uninterpreted parameter `ln`. Python floats are modelled as exact `real`s, so rounding and IEEE special values are left out.
- Random number generation itself is left out. Every draw is an argument.
- `random.seed = 32` at model.py:138 replaces the function instead of seeding. It belongs to the module-level demo run (model.py:137-141), which is left out together with `verbose` printing and data collection.
- server.py (portrayal, charts, sliders, web server) is user-interface code.
- Grid width and height are natural numbers. Mesa's behaviour for negative dimensions is not modelled.
- `_diffuse` is only ever called with its default `degree = 0.5` (`Agents.DiffusionDegree`). `Agents.Diffuse` takes `degree` as a parameter so that its bound can be stated for any weight in [0,1].
- The neighbourhood on grids less than 3 cells wide or high depends on the Mesa release. The model takes the wrapped Moore offsets with repeats removed (`Grid.Dedup`), in the enumeration order of `Grid.RawNeighbors`. So on a 1-wide or 1-high grid a cell can be its own neighbour, and a 1×1 grid gives the neighbourhood `[(0, 0)]`. A release that sorts the wrapped cells or removes the centre after wrapping would differ there. On a 1×1 grid such a release gives an empty neighbourhood, and `_diffuse` would then divide by zero at agents.py:136 and `random.choice` would fail at agents.py:49. The order of the eight neighbours also depends on the release. `Grid.NeighborhoodHasEight` fixes only their set and count, while `Agents.ChosenCell` indexes the model's order.
- A grid of zero width or height with `initial_white` or `initial_black` above 0 makes `randrange` raise `ValueError` (model.py:87-88). `GaiaModel.ValidDraws` cannot hold in that case, so the model excludes this error instead of modelling it.
