# Artificial-life grid ecosystems in Dafny

This project models the generation update of three Python simulations of
animals on a square field of grass that wraps around at its edges (a torus):

- `sample_code/alife_working_example.py` is the predator-prey engine.
  - Each `Animal` carries a species, a cell, a meal counter (`eaten`), a
    hunger counter, a life flag and three constants per species.
  - A generation is move, eat, survive, reproduce, grow.
  - In `eat`, rabbits eat the grass of their cell. Foxes kill every rabbit
    that an index built before feeding lists at their cell.
  - In `survive`, an animal that has eaten nothing gets hungrier. It dies
    once its hunger reaches its starvation level, and the dead are dropped.
  - In `reproduce`, every live animal gets a litter of draws. Each draw
    yields a kit when the meals reach the reproduction level, and a kit
    resets those meals.
  - `count_species` counts the live rabbits and the live foxes.
- `sample_code/alife_C_static-Repoduction.py` is a rabbit-only engine.
  - A `Rabbit` is a cell and a meal counter that every move resets.
  - A generation is move, eat, grow, reproduce, survive.
  - `survive` keeps the rabbits that ate. Breeding zeroes the counter, so
    parents and kits are culled in the generation they breed.
- `alife.py` has the same `Field` as the rabbit-only engine. Its `Animal`
  constructor sets hunger and breeding traits but neither a position nor a
  meal counter.

Each source file has two parts in the model:

- **Value-level rules.** A pure module states the rules on values.
  - `RabbitRules` covers the two rabbit-only engines.
  - `EcosystemRules` covers the predator-prey engine.
  - `Meadow` holds the shared torus and grid arithmetic.
  - `Lists` holds the list facts shared by all.
- **Imperative classes.** `StaticReproduction`, `Alife` and `WorkingExample`
  model the Python classes.
  - The grass is an `array2<int>`.
  - The animal list is a `seq` of distinct objects, which methods update in
    place or reassign.
  - Every method is proved to take the state to the value that the rule
    function gives. Each rule function carries lemmas for the properties the
    code promises.
  - alife.py's five `Animal` traits (hunger and breeding levels, `alive`)
    are constant fields, since no code assigns them after the constructor.
    No method can change them. The breeding methods also state which traits
    the kits carry.

Every random draw is a parameter:

- the `(dx, dy)` of each `rnd.choice([-1, 0, 1])` pair (`steps`);
- the litter of each `rnd.randint` (`litters`);
- the cells of each `rnd.randrange` (`spots`, constructor arguments);
- the 0/1 regrowth mask `np.random.rand(...) < GRASS_RATE`.

Some behaviours of the code are easy to misread; the model follows the
code as written:

- A fox eats every rabbit on its cell, and is fed the number of rabbits the
  index lists there. Two foxes on one cell are both credited with the same
  rabbits.
- Hunger rises only in `survive`, and only for an animal with `eaten == 0`.
  `Animal.eat` with nothing to eat changes nothing.
- A litter is the number of `reproduce` calls, from 0 to `max_offspring`.
  Each call checks the meals itself, so with a reproduction level of at
  least 1 an animal has at most one kit per generation. A failed call does
  not reset the meals.
- In the predator-prey engine the cull comes before reproduction. In the
  rabbit-only engines it comes after reproduction.

## Model

| member | source | states |
|---|---|---|
| Meadow.Wrap | sample_code/alife_working_example.py:44-45 | `(c + d) % n` for n > 0 always lands in [0, n) |
| Meadow.WrapStep | sample_code/alife_C_static-Repoduction.py:59-62 | a step of -1, 0 or 1 from a cell lands on the neighbour: -1 from 0 gives n - 1 and +1 from n - 1 gives 0 |
| Meadow.Lush | sample_code/alife_working_example.py:62 | `np.ones((n, n))` is an n x n 0/1 field with grass on every cell |
| Meadow.MaxMerge | sample_code/alife_working_example.py:120-121 | `np.maximum(field, growloc)`: each cell is at least the old cell and the mask cell, and equals one of them. Two 0/1 grids give a 0/1 grid |
| Meadow.Bare | sample_code/alife_working_example.py:95 | writing 0 to one array cell changes the field's value to the field with exactly that cell cleared |
| Meadow.Maximum | sample_code/alife_working_example.py:121 | the new array holds the cell-wise maximum of the old array and the mask |
| Meadow.TotalCleared | sample_code/alife_C_static-Repoduction.py:91 | clearing a cell removes from the field's total exactly the grass that was on it |
| Meadow.LossIsDrops | sample_code/alife_C_static-Repoduction.py:86-91 | on a 0/1 field that is only grazed, the grass lost is the number of cells that went from 1 to 0 |
| Lists.SubsequenceDistinct | sample_code/alife_working_example.py:107-116 | a list kept in order from a list of distinct objects has distinct objects, all from the original list |
| Lists.SubsequenceMembers | sample_code/alife_working_example.py:107-116 | every object of an order-preserving filter comes from the filtered list |
| RabbitRules.HopLandsNextDoor | sample_code/alife_C_static-Repoduction.py:57-63 | `Rabbit.move` lands on a neighbouring cell, wrapping at the edges, with `eaten` reset to 0 |
| RabbitRules.HopAll | sample_code/alife_C_static-Repoduction.py:81-84 | after `Field.move` every rabbit is on the field and none has eaten |
| RabbitRules.GrazeStep | sample_code/alife_C_static-Repoduction.py:88-91 | one turn of `eat`: the rabbit gains what its cell holds, and the cell is bared |
| RabbitRules.GrazePrefixClosedForm | sample_code/alife_C_static-Repoduction.py:86-91 | after k turns a rabbit has gained its cell's grass exactly when it was first on that cell, and a cell is bare exactly when one of those k rabbits stood on it |
| RabbitRules.GrazeFeedsFirstVisitor | sample_code/alife_C_static-Repoduction.py:86-91 | after `eat` a cell has fed only its first rabbit, every rabbit's cell is bare, grass only disappears, and a 0/1 field stays 0/1 |
| RabbitRules.GrazeStaysBinary | sample_code/alife_C_static-Repoduction.py:86-91 | `eat` keeps every cell in {0, 1} |
| RabbitRules.GrazePrefixConserves | sample_code/alife_C_static-Repoduction.py:86-91 | what the rabbits gain equals what the field's total loses, after any number of turns |
| RabbitRules.GrazeEatsWhatDisappears | sample_code/alife_C_static-Repoduction.py:86-91 | on a 0/1 field the rabbits together gain the number of cells that went from 1 to 0 |
| RabbitRules.FedFilters | sample_code/alife_C_static-Repoduction.py:93-95 | `survive` keeps a rabbit if and only if it has `eaten > 0`, and keeps them in their original order |
| RabbitRules.FedOnField | sample_code/alife_C_static-Repoduction.py:93-95 | the cull keeps every rabbit on the field |
| RabbitRules.FedAppend | sample_code/alife_C_static-Repoduction.py:95 | filtering two lists joined is joining their filtered lists |
| RabbitRules.BredUpToParents | sample_code/alife_C_static-Repoduction.py:100-102 | after i rabbits of the breeding loop, the first i are reset parents and the rest are untouched |
| RabbitRules.LittersStep | sample_code/alife_C_static-Repoduction.py:100-102 | one more rabbit's kits follow the kits born before them |
| RabbitRules.LittersShape | sample_code/alife_C_static-Repoduction.py:97-103 | there is one kit per draw, and each kit has eaten 0 and sits on the cell of a rabbit that bred |
| RabbitRules.BreedShape | sample_code/alife_C_static-Repoduction.py:97-103 | after `reproduce` the old rabbits stay first and on their cells. Each adds 0 to OFFSPRING kits. A rabbit that bred has `eaten == 0` and one that did not is unchanged. Every kit has eaten 0 on a parent's cell |
| RabbitRules.BreedOnField | sample_code/alife_C_static-Repoduction.py:97-103 | breeding keeps every rabbit on the field |
| RabbitRules.FedParents | sample_code/alife_C_static-Repoduction.py:111-117 | culling after breeding keeps exactly the rabbits that had no kits and ate |
| RabbitRules.FedLitters | sample_code/alife_C_static-Repoduction.py:111-117 | culling after breeding removes every kit |
| RabbitRules.TickSurvivors | sample_code/alife_C_static-Repoduction.py:111-117 | after `generation` the rabbits are exactly those that ate this generation and had no kits, in order. All have `eaten > 0`, and there are never more than before |
| RabbitRules.IdleShape | sample_code/alife_C_static-Repoduction.py:111-117 | the rabbits left after a generation have eaten and are no more than the rabbits before |
| RabbitRules.TickField | sample_code/alife_C_static-Repoduction.py:111-117 | a generation keeps the field 0/1, and each cell is the maximum of the grazed cell and the mask, since grow runs after eat |
| StaticReproduction.Rabbit.constructor | sample_code/alife_C_static-Repoduction.py:41-44 | a new rabbit is on the drawn cell and has eaten nothing |
| StaticReproduction.Rabbit.Copy | sample_code/alife_C_static-Repoduction.py:51 | `copy.deepcopy` gives a new rabbit with equal attributes |
| StaticReproduction.Rabbit.Reproduce | sample_code/alife_C_static-Repoduction.py:46-51 | the parent's `eaten` is always set to 0, and the kit is a fresh copy of the reset parent |
| StaticReproduction.Rabbit.Eat | sample_code/alife_C_static-Repoduction.py:53-55 | the amount is added to `eaten`, and nothing else changes |
| StaticReproduction.Rabbit.Move | sample_code/alife_C_static-Repoduction.py:57-63 | the rabbit makes one wrapped step onto the field and `eaten` becomes 0 |
| StaticReproduction.KeepFedFilters | sample_code/alife_C_static-Repoduction.py:95 | the list comprehension keeps exactly the rabbit objects with `eaten > 0`, in order, and their values are `Fed` of the old values |
| StaticReproduction.Field.constructor | sample_code/alife_C_static-Repoduction.py:70-75 | a new field has grass on every cell and no rabbits |
| StaticReproduction.Field.AddRabbit | sample_code/alife_C_static-Repoduction.py:77-79 | exactly one rabbit is appended at the end, and nothing else changes |
| StaticReproduction.Field.Move | sample_code/alife_C_static-Repoduction.py:81-84 | the rabbits become `HopAll` of their old values, and the grass is unchanged |
| StaticReproduction.Field.Eat | sample_code/alife_C_static-Repoduction.py:86-91 | field and rabbits become `Graze` of their old values, and the field stays 0/1 |
| StaticReproduction.Field.EatAt | sample_code/alife_C_static-Repoduction.py:88-91 | one loop turn takes the state from `GrazePrefix` of i turns to that of i + 1 turns |
| StaticReproduction.Field.Survive | sample_code/alife_C_static-Repoduction.py:93-95 | the list keeps exactly the objects with `eaten > 0`, in order, and its value is `Fed` of the old value |
| StaticReproduction.Field.Reproduce | sample_code/alife_C_static-Repoduction.py:97-103 | the old list is a prefix of the new one, the kits are fresh objects, and the value is `Breed` of the old value |
| StaticReproduction.Field.BreedEach | sample_code/alife_C_static-Repoduction.py:99-102 | the loop turns the rabbits into `Parents` and returns `Litters` as distinct fresh kits |
| StaticReproduction.Field.BreedAt | sample_code/alife_C_static-Repoduction.py:100-102 | one rabbit's turn takes the loop from `BredUpTo` i to `BredUpTo` i + 1 |
| StaticReproduction.Field.Litter | sample_code/alife_C_static-Repoduction.py:101-102 | `litter` calls of `reproduce` reset the parent and give `Kits` as distinct fresh objects |
| StaticReproduction.Field.Grow | sample_code/alife_C_static-Repoduction.py:105-109 | the field becomes `MaxMerge` of itself and the mask, and the rabbits are unchanged |
| StaticReproduction.Field.CullAfterBreeding | sample_code/alife_C_static-Repoduction.py:111-117 | a rabbit kept by the cull after breeding is an old rabbit that had no kits |
| StaticReproduction.Field.Generation | sample_code/alife_C_static-Repoduction.py:111-117 | field and rabbits become `Tick` of their old values. Every rabbit left is an old one with `eaten > 0`, and none that bred remains |
| Alife.Animal.constructor | alife.py:24-29 | the traits are set, `type` is unused, and the position and meal counter do not exist yet |
| Alife.Animal.Copy | alife.py:34 | `copy.deepcopy` gives a new animal with equal attributes |
| Alife.Animal.Reproduce | alife.py:31-34 | `eaten` is set to 0 (creating it), and the kit is a fresh copy with the same position and traits |
| Alife.Animal.Eat | alife.py:36-38 | the amount is added to an existing `eaten`, and nothing else changes |
| Alife.Animal.Move | alife.py:40-46 | from an existing position the animal makes one wrapped step onto the field, and `eaten` becomes 0 |
| Alife.KeepFedFilters | alife.py:79 | the list comprehension keeps exactly the objects with `eaten > 0`, in order, and their values are `Fed` of the old values |
| Alife.Field.constructor | alife.py:54-59 | a new field has grass on every cell and no rabbits |
| Alife.Field.AddRabbit | alife.py:61-63 | exactly one rabbit is appended at the end, and nothing else changes |
| Alife.Field.Move | alife.py:65-68 | the rabbits become `HopAll` of their old values, and each now has its meal counter |
| Alife.Field.Eat | alife.py:70-75 | field and rabbits become `Graze` of their old values, and the field stays 0/1 |
| Alife.Field.EatAt | alife.py:72-75 | one loop turn takes the state from `GrazePrefix` of i turns to that of i + 1 turns |
| Alife.Field.Survive | alife.py:77-79 | the list keeps exactly the objects with `eaten > 0`, in order |
| Alife.Field.Reproduce | alife.py:81-87 | the old list is a prefix of the new one, the kits are fresh, the value is `Breed` of the old value, and the kits' traits are each parent's traits repeated by its litter (`Spread`) |
| Alife.Field.BreedEach | alife.py:83-86 | the loop turns the rabbits into `Parents` and returns `Litters` as distinct fresh kits, whose traits are `Spread` of the parents' traits by the litters |
| Alife.Field.BreedAt | alife.py:84-86 | one rabbit's turn takes the loop from `BredUpTo` i to `BredUpTo` i + 1, and its kits carry its traits |
| Alife.Field.Litter | alife.py:85-86 | `litter` calls of `reproduce` reset the parent and give `Kits`, each kit carrying the parent's traits (`Repeat`) |
| Alife.Field.Grow | alife.py:89-93 | the field becomes `MaxMerge` of itself and the mask |
| Alife.Field.CullAfterBreeding | alife.py:95-101 | a rabbit kept by the cull after breeding is an old rabbit that had no kits |
| Alife.Field.Generation | alife.py:95-101 | move, eat, grow, reproduce, survive give `Tick`. Every rabbit left is an old one with `eaten > 0` that had no kits |
| EcosystemRules.StepLandsNextDoor | sample_code/alife_working_example.py:42-45 | `Animal.move` lands on a neighbouring cell, wrapping at the edges, and changes nothing but the position |
| EcosystemRules.Roam | sample_code/alife_working_example.py:69-73 | moving keeps an on-field list on the field |
| EcosystemRules.RoamOnField | sample_code/alife_working_example.py:69-73 | only the live animals move, and only their positions change |
| EcosystemRules.Index | sample_code/alife_working_example.py:78-84 | every position in `rabbit_locations` is a valid list index |
| EcosystemRules.IndexHasPrey | sample_code/alife_working_example.py:78-84 | every live rabbit is listed under its own cell |
| EcosystemRules.IndexOnlyPrey | sample_code/alife_working_example.py:78-84 | only live rabbits are listed, each under its own cell |
| EcosystemRules.IndexCounts | sample_code/alife_working_example.py:78-84 | the length of a cell's list (0 for a cell not in the index) is the number of live rabbits on that cell |
| EcosystemRules.IndexInOrder | sample_code/alife_working_example.py:78-84 | a cell's list is strictly increasing, so it follows list order and names no rabbit twice |
| EcosystemRules.KillKills | sample_code/alife_working_example.py:101-102 | exactly the listed animals are marked dead, and nothing else about them changes |
| EcosystemRules.FeedPrefix | sample_code/alife_working_example.py:87-103 | the feeding loop keeps the field's shape and the list's length |
| EcosystemRules.FeedKeepsBodies | sample_code/alife_working_example.py:87-103 | eating never changes an animal's species, cell or constants |
| EcosystemRules.FeedStep | sample_code/alife_working_example.py:87-103 | one more turn of the feeding loop is that animal's turn |
| EcosystemRules.FeedOneFrame | sample_code/alife_working_example.py:87-103 | in one turn only the animal whose turn it is eats. Another animal can only die, and only if the index lists it at the cell of the fox whose turn it is |
| EcosystemRules.FeedOneGrazes | sample_code/alife_working_example.py:91-95 | one turn only bares cells |
| EcosystemRules.TurnFrame | sample_code/alife_working_example.py:87-103 | turn m changes another animal only by killing it, and only a live rabbit on the cell of the live fox whose turn it is |
| EcosystemRules.FeedUntouched | sample_code/alife_working_example.py:87-103 | before its turn an animal has its starting meals and hunger |
| EcosystemRules.OnlyRabbitsDie | sample_code/alife_working_example.py:97-102 | only rabbits die while the animals eat |
| EcosystemRules.FeedSettled | sample_code/alife_working_example.py:87-103 | after its turn an animal's meals and hunger no longer change |
| EcosystemRules.StaysDead | sample_code/alife_working_example.py:87-103 | no animal comes back to life while the animals eat |
| EcosystemRules.DeadSettled | sample_code/alife_working_example.py:87-89 | an animal dead after its turn ends the meal as it was then |
| EcosystemRules.FoxSettled | sample_code/alife_working_example.py:97-103 | a fox ends the meal as it was right after its turn |
| EcosystemRules.CellOnlyBared | sample_code/alife_working_example.py:94-95 | during the meal a cell keeps its grass or becomes 0 |
| EcosystemRules.FeastStaysBinary | sample_code/alife_working_example.py:87-103 | `eat` keeps the field 0/1, and grass only disappears |
| EcosystemRules.FoxStrikes | sample_code/alife_working_example.py:97-102 | right after a live fox's turn, every rabbit indexed at its cell is dead |
| EcosystemRules.FoxKills | sample_code/alife_working_example.py:97-102 | a rabbit indexed at a live fox's cell is dead at every point after the fox's turn |
| EcosystemRules.FoxTurn | sample_code/alife_working_example.py:97-103 | on its turn a live fox is fed the number of rabbits indexed at its cell |
| EcosystemRules.FoxCredit | sample_code/alife_working_example.py:97-103 | a live fox ends the meal fed with the count of rabbits indexed at its cell, which is the number of live rabbits on the cell before feeding, so a second fox on the cell is credited the same count |
| EcosystemRules.HuntedByFox | sample_code/alife_working_example.py:97-99 | a cell is hunted only if some live fox stands on it |
| EcosystemRules.RabbitSpared | sample_code/alife_working_example.py:97-102 | a live rabbit with no live fox on its cell among the first m animals is alive after their turns |
| EcosystemRules.RabbitSurvivesIffNoFox | sample_code/alife_working_example.py:78-103 | a live rabbit survives `eat` if and only if no live fox shares its cell |
| EcosystemRules.KilledRabbitSkipped | sample_code/alife_working_example.py:87-89 | a rabbit killed by an earlier fox is skipped: it ends dead, with its meals and hunger unchanged |
| EcosystemRules.SkippedTurn | sample_code/alife_working_example.py:88-89 | a dead animal's turn changes nothing |
| EcosystemRules.RabbitGrazes | sample_code/alife_working_example.py:91-95 | a live rabbit no earlier fox killed gains the 0 or 1 grass its cell holds on its turn, which clears its hunger if positive. Its cell is bare after `eat` |
| EcosystemRules.SurvivorsStep | sample_code/alife_working_example.py:108-115 | one more animal's turn of `survive` appends it when it lives |
| EcosystemRules.SurvivorsInOrder | sample_code/alife_working_example.py:105-116 | `survive` keeps the animals in their original relative order |
| EcosystemRules.SurvivorsSound | sample_code/alife_working_example.py:105-116 | every kept animal was alive, is alive and is below its starvation level. Its hunger is one higher if it had eaten 0, and unchanged otherwise |
| EcosystemRules.SurvivorsComplete | sample_code/alife_working_example.py:108-115 | every live animal whose raised hunger stays below its starvation level is kept |
| EcosystemRules.BroodClosedForm | sample_code/alife_working_example.py:128-131 | a litter of draws gives no kit and no change when the meals are below the level. Otherwise the meals are reset and there is one kit, or one per draw when the level is at most 0, each a copy of the reset parent |
| EcosystemRules.BredUpToParents | sample_code/alife_working_example.py:126-131 | after i animals of the breeding loop the first i have bred and the rest are untouched |
| EcosystemRules.BornStep | sample_code/alife_working_example.py:126-131 | one more animal's kits follow the kits born before them |
| EcosystemRules.BredShape | sample_code/alife_working_example.py:126-131 | a parent changes only by a meal reset, and only if it had a kit. Kits are live copies of the reset parent, at most one per draw and at most one in all when the level is at least 1 |
| EcosystemRules.BornShape | sample_code/alife_working_example.py:123-132 | every kit is a live copy of a parent with eaten 0. There is at most one kit per draw, and at most one per animal when every level is at least 1 |
| EcosystemRules.BreedOnField | sample_code/alife_working_example.py:123-132 | breeding keeps every animal on the field |
| EcosystemRules.FeastOnField | sample_code/alife_working_example.py:75-103 | eating moves nobody |
| EcosystemRules.SurvivorsFit | sample_code/alife_working_example.py:105-116 | every survivor is on the field, alive and below its starvation level |
| EcosystemRules.BreedFit | sample_code/alife_working_example.py:123-132 | breeding fit animals gives only fit animals |
| EcosystemRules.TickKeepsField | sample_code/alife_working_example.py:146-152 | a generation keeps the field 0/1, with each cell the maximum of the grazed cell and the mask. It leaves only fit animals, all on the field |
| EcosystemRules.Census | sample_code/alife_working_example.py:154-157 | `count_species` gives rabbits + foxes <= len(animals) |
| EcosystemRules.CensusAppend | sample_code/alife_working_example.py:154-157 | the counts of two lists joined are the sums of their counts |
| EcosystemRules.CensusCountsAll | sample_code/alife_working_example.py:154-157 | when all animals are alive rabbits or foxes, the two counts add up to the list's length |
| EcosystemRules.CensusOfOneKind | sample_code/alife_working_example.py:154-157 | a list of live rabbits counts as (len, 0), and a list of live foxes as (0, len) |
| EcosystemRules.CensusSkipsOthers | sample_code/alife_working_example.py:154-157 | dead animals and other species are not counted: a list with no live rabbit counts 0 rabbits, and one with no live fox counts 0 foxes |
| WorkingExample.Animal.constructor | sample_code/alife_working_example.py:30-39 | a new animal is on the drawn cell, has eaten nothing, is not hungry, is alive and has the given constants |
| WorkingExample.Animal.Copy | sample_code/alife_working_example.py:55 | `copy.deepcopy` gives a new animal with equal attributes |
| WorkingExample.Animal.Move | sample_code/alife_working_example.py:42-45 | the animal makes one wrapped step, and its meals are kept |
| WorkingExample.Animal.Eat | sample_code/alife_working_example.py:47-50 | a positive amount is added to `eaten` and clears the hunger. Any other amount changes nothing |
| WorkingExample.Animal.Reproduce | sample_code/alife_working_example.py:52-56 | there is an offspring if and only if `eaten >= reproduction_level`. The meals are then reset and the offspring is a fresh copy of the reset animal. Otherwise nothing changes |
| WorkingExample.FoundersCensus | sample_code/alife_working_example.py:63-67 | a new field holds INIT_RABBITS live rabbits and INIT_FOXES live foxes, all fit |
| WorkingExample.PickHas | sample_code/alife_working_example.py:99-102 | in a list of distinct objects, an object is among the indexed rabbits if and only if its position is |
| WorkingExample.LocatedAdd | sample_code/alife_working_example.py:81-84 | adding one rabbit to the dictionary keeps it in step with the index of positions |
| WorkingExample.Field.constructor | sample_code/alife_working_example.py:61-67 | a new field has grass everywhere, then the rabbits and then the foxes on their drawn cells |
| WorkingExample.Field.Move | sample_code/alife_working_example.py:69-73 | the animals become `Roam` of their old values, and the grass is unchanged |
| WorkingExample.Field.LocateRabbits | sample_code/alife_working_example.py:78-84 | `rabbit_locations` holds, per cell, the objects of the live rabbits there, in list order |
| WorkingExample.Field.Eat | sample_code/alife_working_example.py:75-103 | field and animals become `Feast` of their old values, and the field stays 0/1 |
| WorkingExample.Field.FeedAt | sample_code/alife_working_example.py:87-103 | one loop turn takes the state from `FeedPrefix` i to `FeedPrefix` i + 1 |
| WorkingExample.Field.RabbitEats | sample_code/alife_working_example.py:91-95 | a live rabbit's turn gives the rabbit case of `FeedOne`: it is fed its cell's grass, and the cell is bared only if it had grass |
| WorkingExample.Field.FoxHunts | sample_code/alife_working_example.py:97-103 | a live fox's turn leaves the grass alone and gives the fox case of `FeedOne`: the rabbits indexed at its cell die and the fox is fed their number |
| WorkingExample.Field.KillAll | sample_code/alife_working_example.py:101-102 | every listed rabbit object is marked dead, and nothing else about it changes |
| WorkingExample.Field.Survive | sample_code/alife_working_example.py:105-116 | each old animal is updated by `Endure`. The new list is an order-preserving selection of the old objects, and its value is `Survivors` of the old value |
| WorkingExample.Field.EndureAll | sample_code/alife_working_example.py:107-115 | the loop updates every animal by `Endure` and returns the live ones in order |
| WorkingExample.Field.EndureAt | sample_code/alife_working_example.py:108-115 | one loop turn takes `surviving_animals` from `Survivors` of i animals to that of i + 1 |
| WorkingExample.Field.Starve | sample_code/alife_working_example.py:109-113 | a live animal that ate nothing gets one hungrier, and dies at its starvation level |
| WorkingExample.Field.Reproduce | sample_code/alife_working_example.py:123-132 | the old list is a prefix of the new one, the kits are fresh, and the value is `Breed` of the old value |
| WorkingExample.Field.BreedEach | sample_code/alife_working_example.py:125-131 | the loop turns the animals into `Parents` and returns `Born` as distinct fresh kits |
| WorkingExample.Field.BreedAt | sample_code/alife_working_example.py:126-131 | one animal's turn takes the loop from `BredUpTo` i to `BredUpTo` i + 1 |
| WorkingExample.Field.Litter | sample_code/alife_working_example.py:128-131 | the draws of one animal give `Brood` of its old value |
| WorkingExample.Field.Grow | sample_code/alife_working_example.py:118-121 | the field becomes `MaxMerge` of itself and the mask |
| WorkingExample.Field.Generation | sample_code/alife_working_example.py:146-152 | move, eat, survive, reproduce, grow take field and animals to `Tick` of their old values |

## Left out

- Display and animation: `get_display_field`, `animate`, `time_series`,
  `main`, matplotlib figures and colour maps. They only draw the state.
- Random sources and probabilities: every draw is a parameter, and the
  regrowth probability `GRASS_RATE` appears only through the 0/1 mask.
- `FIGSIZE` and `GRASS_RATE` are not modelled. `ARRSIZE`, `INIT_RABBITS`,
  `INIT_FOXES` and `OFFSPRING` are constants with the source's values.
- Numpy: the rabbit-only engines' float grid is modelled as an `int` grid
  holding 0 and 1.
- Numpy's negative indexing is not needed: every position is proved to lie
  in [0, ARRSIZE).
- `copy.deepcopy` is a field-by-field copy into a new object, since the
  animals hold no other objects.
- Aliasing: one object listed twice is excluded (`Distinct` is part of each
  field's invariant), and `add_rabbit` requires a rabbit not already on the
  field.
- alife.py's `Animal` constructor creates neither the position nor the
  meal counter. The model tracks their existence with two ghost flags.
  - `move` and `eat` read the position, and no code in alife.py creates
    `x` and `y`. So `Alife.Field.AddRabbit` requires a rabbit whose caller
    has set them, and `Placed` is part of the field's invariant.
  - `move` and `reproduce` create `eaten`; `eat` and `survive` read it.
    `Alife.Field.Eat` and `Alife.Field.Survive` require every rabbit to have
    it (`Counted`). `Alife.Field.Move` establishes it, so `Generation`
    does not need it.
  - Calling a method without the attribute it reads is refused, where
    Python would raise `AttributeError`.
- alife.py's `Animal` traits are `const` fields. No code in alife.py assigns
  them after `__init__`. A caller assigning them directly from outside the
  class is not modelled.
- Species names other than "rabbit" and "fox" are kept as `Other(name)`.
  The name's type excludes "rabbit" and "fox", so each name has one
  representation. Such animals only move, survive and breed.
- WorkingExample.Field.Generation: accepts any natural number as a litter
  instead of the `rnd.randint(0, max_offspring)` range. The stated results
  hold for every litter, so the range bound is not needed.
- The stale header docstring of sample_code/alife_C_static-Repoduction.py
  (no reproduction, no starvation) is not modelled, because the code does
  both.
- alife_start.py has empty method bodies and is not part of this model.
