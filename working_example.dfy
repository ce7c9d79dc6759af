/** sample_code/alife_working_example.py: rabbits and foxes on a field of
    grass. Every `Animal` is an object whose methods update its attributes;
    the `Field` keeps the grass in a numpy array, here an `array2<int>`, and
    the animals in a list that its loops walk, update in place, filter and
    extend. Each `Field` method is proved to compute the corresponding
    function of EcosystemRules on the field's state. */
module WorkingExample {
  import opened Meadow
  import opened Lists
  import opened EcosystemRules

  /** The side of the square field. */
  const ARRSIZE: int := 25
  /** The rabbits and foxes a new field starts with. */
  const INIT_RABBITS: nat := 100
  const INIT_FOXES: nat := 15

  class Animal {
    var species: Species
    var x: int
    var y: int
    var eaten: int
    var hunger: int
    var alive: bool
    var maxOffspring: int
    var starvationLevel: int
    var reproductionLevel: int

    /** `Animal(species, max_offspring, starvation_level, reproduction_level)`
        on the cell drawn by its two `rnd.randrange(0, ARRSIZE)` calls:
        nothing eaten, not hungry, alive. */
    constructor (x: int, y: int, species: Species := Rabbit, maxOffspring: int := 1, starvationLevel: int := 1, reproductionLevel: int := 1)
      requires 0 <= x < ARRSIZE && 0 <= y < ARRSIZE
      ensures State() == Creature(species, x, y, 0, 0, true, maxOffspring, starvationLevel, reproductionLevel)
    {
      this.x, this.y := x, y;
      eaten, hunger, alive := 0, 0, true;
      this.species := species;
      this.maxOffspring, this.starvationLevel, this.reproductionLevel := maxOffspring, starvationLevel, reproductionLevel;
    }

    /** `copy.deepcopy`: a new animal with the same attributes. */
    constructor Copy(other: Animal)
      ensures State() == other.State()
    {
      species, x, y := other.species, other.x, other.y;
      eaten, hunger, alive := other.eaten, other.hunger, other.alive;
      maxOffspring, starvationLevel, reproductionLevel := other.maxOffspring, other.starvationLevel, other.reproductionLevel;
    }

    ghost function State(): Creature
      reads this
    {
      Creature(species, x, y, eaten, hunger, alive, maxOffspring, starvationLevel, reproductionLevel)
    }

    /** `move`: one step of (dx, dy) on the torus. */
    method Move(dx: int, dy: int)
      requires IsStep(dx) && IsStep(dy)
      modifies this
      ensures State() == Step(old(State()), dx, dy, ARRSIZE)
    {
      x := (x + dx) % ARRSIZE;
      y := (y + dy) % ARRSIZE;
    }

    /** `eat`: a positive amount is added to the meals and clears the hunger. */
    method Eat(amount: int)
      modifies this
      ensures State() == Feed(old(State()), amount)
    {
      if amount > 0 {
        eaten := eaten + amount;
        hunger := 0;
      }
    }

    /** `reproduce`: once the meals reach the reproduction level they are
        reset and the offspring is a copy of the reset animal; otherwise
        there is no offspring and nothing changes. */
    method Reproduce() returns (offspring: Animal?)
      modifies this
      ensures old(eaten) >= reproductionLevel ==>
        && State() == old(State()).(eaten := 0)
        && offspring != null && fresh(offspring) && offspring.State() == State()
      ensures old(eaten) < reproductionLevel ==> State() == old(State()) && offspring == null
    {
      if eaten >= reproductionLevel {
        eaten := 0;
        offspring := new Animal.Copy(this);
      } else {
        offspring := null;
      }
    }
  }

  /** The values of a list of animals. */
  ghost function HerdOf(s: seq<Animal>): (h: seq<Creature>)
    reads s
    ensures |h| == |s|
  {
    seq(|s|, k requires 0 <= k < |s| reads s => s[k].State())
  }

  lemma HerdOfAppend(a: seq<Animal>, b: seq<Animal>)
    ensures HerdOf(a + b) == HerdOf(a) + HerdOf(b)
  {
  }

  /** A new rabbit and a new fox as `Field()` makes them. */
  function NewRabbit(spot: (int, int)): Creature {
    Creature(Rabbit, spot.0, spot.1, 0, 0, true, 2, 5, 1)
  }

  function NewFox(spot: (int, int)): Creature {
    Creature(Fox, spot.0, spot.1, 0, 0, true, 1, 12, 2)
  }

  /** The animals of a new field: INIT_RABBITS rabbits, then INIT_FOXES foxes,
      on the cells drawn for them. */
  function Founders(spots: seq<(int, int)>): (h: seq<Creature>)
    requires |spots| == INIT_RABBITS + INIT_FOXES
    ensures |h| == |spots|
  {
    seq(|spots|, k requires 0 <= k < |spots| => if k < INIT_RABBITS then NewRabbit(spots[k]) else NewFox(spots[k]))
  }

  /** A new field holds INIT_RABBITS live rabbits and INIT_FOXES live foxes,
      all fit. */
  lemma FoundersCensus(spots: seq<(int, int)>)
    requires |spots| == INIT_RABBITS + INIT_FOXES
    requires forall k :: 0 <= k < |spots| ==> 0 <= spots[k].0 < ARRSIZE && 0 <= spots[k].1 < ARRSIZE
    ensures Census(Founders(spots)) == (INIT_RABBITS, INIT_FOXES)
    ensures forall c :: c in Founders(spots) ==> Fit(c, ARRSIZE)
  {
    var h := Founders(spots);
    var rabbits, foxes := h[..INIT_RABBITS], h[INIT_RABBITS..];
    assert h == rabbits + foxes;
    CensusOfOneKind(rabbits);
    CensusOfOneKind(foxes);
    CensusAppend(rabbits, foxes);
  }

  /** The objects at the given list positions. */
  function Pick(s: seq<Animal>, ks: seq<nat>): (r: seq<Animal>)
    requires forall t :: 0 <= t < |ks| ==> ks[t] < |s|
    ensures |r| == |ks|
  {
    seq(|ks|, t requires 0 <= t < |ks| => s[ks[t]])
  }

  /** In a list of distinct objects, an object is picked exactly when its
      position is. */
  lemma PickHas(s: seq<Animal>, ks: seq<nat>, k: nat)
    requires Distinct(s) && k < |s| && forall t :: 0 <= t < |ks| ==> ks[t] < |s|
    ensures s[k] in Pick(s, ks) <==> k in ks
  {
    if s[k] in Pick(s, ks) {
      var t :| 0 <= t < |ks| && Pick(s, ks)[t] == s[k];
      assert ks[t] == k;
    }
    if k in ks {
      var t :| 0 <= t < |ks| && ks[t] == k;
      assert Pick(s, ks)[t] == s[k];
    }
  }

  /** `rabbit_locations` holds the rabbit objects that the index of list
      positions names. */
  ghost predicate Located(m: map<(int, int), seq<Animal>>, s: seq<Animal>, index: map<(int, int), seq<nat>>) {
    && m.Keys == index.Keys
    && forall pos :: pos in index ==>
      (forall t :: 0 <= t < |index[pos]| ==> index[pos][t] < |s|) && m[pos] == Pick(s, index[pos])
  }

  class Field {
    var field: array2<int>
    var animals: seq<Animal>

    ghost predicate Valid()
      reads this, field, animals
    {
      && field.Length0 == ARRSIZE && field.Length1 == ARRSIZE
      && IsBinary(GridOf(field), ARRSIZE)
      && Distinct(animals)
      && OnField(HerdOf(animals), ARRSIZE)
    }

    ghost function Grass(): Grid
      reads this, field
    {
      GridOf(field)
    }

    ghost function Herd(): seq<Creature>
      reads this, animals
    {
      HerdOf(animals)
    }

    /** `Field()`: grass everywhere, then the rabbits and the foxes on the
        cells drawn for them, in that order. */
    constructor (spots: seq<(int, int)>)
      requires |spots| == INIT_RABBITS + INIT_FOXES
      requires forall k :: 0 <= k < |spots| ==> 0 <= spots[k].0 < ARRSIZE && 0 <= spots[k].1 < ARRSIZE
      ensures Valid() && fresh(field) && forall a :: a in animals ==> fresh(a)
      ensures Grass() == Lush(ARRSIZE) && Herd() == Founders(spots)
    {
      var all: seq<Animal> := [];
      var k := 0;
      while k < |spots|
        invariant 0 <= k <= |spots| && |all| == k
        invariant Distinct(all) && forall a :: a in all ==> fresh(a)
        invariant HerdOf(all) == Founders(spots)[..k]
      {
        var a;
        if k < INIT_RABBITS {
          a := new Animal(spots[k].0, spots[k].1, Rabbit, 2, 5, 1);
        } else {
          a := new Animal(spots[k].0, spots[k].1, Fox, 1, 12, 2);
        }
        HerdOfAppend(all, [a]);
        all := all + [a];
        k := k + 1;
      }
      field := new int[ARRSIZE, ARRSIZE]((i, j) => 1);
      animals := all;
      new;
      assert forall i :: 0 <= i < ARRSIZE ==> GridOf(field)[i] == Lush(ARRSIZE)[i];
      FoundersCensus(spots);
      assert forall i :: 0 <= i < |animals| ==> Herd()[i] in Founders(spots);
    }

    /** `move`: the live animals step with their own draws; the dead stay. */
    method Move(steps: seq<(int, int)>)
      requires Valid() && |steps| == |animals| && AreSteps(steps)
      modifies animals
      ensures Valid() && Grass() == old(Grass())
      ensures Herd() == Roam(old(Herd()), steps, ARRSIZE)
    {
      ghost var h0 := Herd();
      var i := 0;
      while i < |animals|
        invariant 0 <= i <= |animals|
        invariant forall k :: 0 <= k < i ==> animals[k].State() == Roam(h0, steps, ARRSIZE)[k]
        invariant forall k :: i <= k < |animals| ==> animals[k].State() == h0[k]
      {
        if animals[i].alive {
          animals[i].Move(steps[i].0, steps[i].1);
        }
        i := i + 1;
      }
      assert Herd() == Roam(h0, steps, ARRSIZE);
    }

    /** The first loop of `eat`: the live rabbits by cell, in list order. */
    method LocateRabbits() returns (m: map<(int, int), seq<Animal>>)
      ensures Located(m, animals, Index(Herd()))
    {
      ghost var h := Herd();
      m := map[];
      var i := 0;
      while i < |animals|
        invariant 0 <= i <= |animals|
        invariant Located(m, animals, Index(h[..i]))
      {
        var animal := animals[i];
        assert h[..i + 1][..i] == h[..i];
        if animal.alive && animal.species == Rabbit {
          var pos := (animal.x, animal.y);
          LocatedAdd(m, animals, Index(h[..i]), pos, i);
          ghost var before := m;
          if pos !in m {
            m := m[pos := []];
          }
          m := m[pos := m[pos] + [animal]];
          assert m == before[pos := (if pos in before then before[pos] else []) + [animal]];
        }
        i := i + 1;
      }
      assert h[..i] == h;
    }

    /** `eat`: the index is built, then every animal has its turn. */
    method Eat()
      requires Valid()
      modifies field, animals
      ensures Valid()
      ensures Grass() == Feast(old(Grass()), old(Herd()), ARRSIZE).0
      ensures Herd() == Feast(old(Grass()), old(Herd()), ARRSIZE).1
    {
      var rabbitLocations := LocateRabbits();
      ghost var g0, h0 := Grass(), Herd();
      var i := 0;
      while i < |animals|
        invariant 0 <= i <= |animals| == |h0|
        invariant Grass() == FeedPrefix(g0, h0, ARRSIZE, i).0
        invariant Herd() == FeedPrefix(g0, h0, ARRSIZE, i).1
      {
        FeedAt(i, rabbitLocations, g0, h0);
        i := i + 1;
      }
      FeastStaysBinary(g0, h0, ARRSIZE);
      FeastOnField(g0, h0, ARRSIZE);
    }

    /** One turn of the feeding loop of `eat`: it takes the state from the
        first i animals having eaten to the first i + 1. */
    method FeedAt(i: nat, rabbitLocations: map<(int, int), seq<Animal>>, ghost g0: Grid, ghost h0: seq<Creature>)
      requires field.Length0 == ARRSIZE && field.Length1 == ARRSIZE
      requires IsGrid(g0, ARRSIZE) && OnField(h0, ARRSIZE)
      requires i < |animals| == |h0| && Distinct(animals)
      requires Located(rabbitLocations, animals, Index(h0))
      requires Grass() == FeedPrefix(g0, h0, ARRSIZE, i).0 && Herd() == FeedPrefix(g0, h0, ARRSIZE, i).1
      modifies field, animals
      ensures Grass() == FeedPrefix(g0, h0, ARRSIZE, i + 1).0 && Herd() == FeedPrefix(g0, h0, ARRSIZE, i + 1).1
    {
      FeedStep(g0, h0, ARRSIZE, i);
      var animal := animals[i];
      if !animal.alive {
        return;
      }
      if animal.species == Rabbit {
        RabbitEats(i, Index(h0));
      } else if animal.species == Fox {
        FoxHunts(i, rabbitLocations, h0);
      }
    }

    /** A live rabbit's turn in `eat`: it eats the grass of its cell, which
        is bared if it had grass. */
    method RabbitEats(i: nat, ghost index: map<(int, int), seq<nat>>)
      requires field.Length0 == ARRSIZE && field.Length1 == ARRSIZE
      requires i < |animals| && Distinct(animals)
      requires animals[i].alive && animals[i].species == Rabbit
      requires 0 <= animals[i].x < ARRSIZE && 0 <= animals[i].y < ARRSIZE
      modifies field, animals[i]
      ensures Grass() == FeedOne(old(Grass()), old(Herd()), index, ARRSIZE, i).0
      ensures Herd() == FeedOne(old(Grass()), old(Herd()), index, ARRSIZE, i).1
    {
      ghost var h := Herd();
      var animal := animals[i];
      var grassAmount := field[animal.x, animal.y];
      animal.Eat(grassAmount);
      if grassAmount > 0 {
        Bare(field, animal.x, animal.y);
      }
      forall k | 0 <= k < |animals|
        ensures animals[k].State() == h[i := Feed(h[i], grassAmount)][k]
      {
        if k != i {
          assert animals[k] != animal;
        }
      }
      assert Herd() == h[i := Feed(h[i], grassAmount)];
    }

    /** A live fox's turn in `eat`: every rabbit the index lists at its cell
        dies, and the fox is fed their number. */
    method FoxHunts(i: nat, rabbitLocations: map<(int, int), seq<Animal>>, ghost h0: seq<Creature>)
      requires field.Length0 == ARRSIZE && field.Length1 == ARRSIZE
      requires i < |animals| == |h0| && Distinct(animals)
      requires Located(rabbitLocations, animals, Index(h0))
      requires animals[i].alive && animals[i].species == Fox
      requires 0 <= animals[i].x < ARRSIZE && 0 <= animals[i].y < ARRSIZE
      modifies animals
      ensures Grass() == old(Grass())
      ensures Herd() == FeedOne(old(Grass()), old(Herd()), Index(h0), ARRSIZE, i).1
    {
      var animal := animals[i];
      var pos := (animal.x, animal.y);
      if pos in rabbitLocations {
        ghost var h := Herd();
        var rabbitsHere := rabbitLocations[pos];
        ghost var prey := Index(h0)[pos];
        KillAll(rabbitsHere);
        ghost var killed := HerdOf(animals);
        forall k | 0 <= k < |animals|
          ensures killed[k] == Kill(h, prey)[k]
        {
          PickHas(animals, prey, k);
          KillKills(h, prey, k);
        }
        animal.Eat(|rabbitsHere|);
        forall k | 0 <= k < |animals|
          ensures animals[k].State() == killed[i := Feed(killed[i], |prey|)][k]
        {
          if k != i {
            assert animals[k] != animal;
          }
        }
        assert Herd() == Kill(h, prey)[i := Feed(Kill(h, prey)[i], |prey|)];
      }
    }

    /** `for rabbit in rabbits_here: rabbit.alive = False`. */
    static method KillAll(victims: seq<Animal>)
      modifies set v | v in victims
      ensures forall v :: v in victims ==> v.State() == old(v.State()).(alive := false)
    {
      var t := 0;
      while t < |victims|
        invariant 0 <= t <= |victims|
        invariant forall v :: v in victims[..t] ==> v.State() == old(v.State()).(alive := false)
        invariant forall v :: v in victims && v !in victims[..t] ==> v.State() == old(v.State())
      {
        victims[t].alive := false;
        assert victims[..t + 1] == victims[..t] + [victims[t]];
        t := t + 1;
      }
      assert victims[..t] == victims;
    }

    /** `survive`: every live animal gets hungrier if it has eaten nothing
        and dies when it starves; the animals still alive stay, in order. */
    method Survive()
      requires Valid()
      modifies this, animals
      ensures Valid() && field == old(field) && Grass() == old(Grass())
      ensures forall k :: 0 <= k < |old(animals)| ==> old(animals)[k].State() == Endure(old(animals[k].State()))
      ensures IsSubsequence(animals, old(animals))
      ensures forall k :: 0 <= k < |animals| ==> animals[k] in old(animals)
      ensures Herd() == Survivors(old(Herd()))
    {
      ghost var h0 := Herd();
      var survivingAnimals := EndureAll();
      SubsequenceDistinct(survivingAnimals, animals);
      SurvivorsFit(h0, ARRSIZE);
      ghost var kept := HerdOf(survivingAnimals);
      forall k | 0 <= k < |kept|
        ensures 0 <= kept[k].x < ARRSIZE && 0 <= kept[k].y < ARRSIZE
      {
        assert kept[k] in Survivors(h0);
      }
      animals := survivingAnimals;
    }

    /** The loop of `survive`, returning `surviving_animals`. */
    method EndureAll() returns (survivingAnimals: seq<Animal>)
      requires Distinct(animals)
      modifies animals
      ensures forall k :: 0 <= k < |animals| ==> animals[k].State() == Endure(old(animals[k].State()))
      ensures IsSubsequence(survivingAnimals, animals)
      ensures HerdOf(survivingAnimals) == Survivors(old(Herd()))
    {
      ghost var h0 := Herd();
      survivingAnimals := [];
      var i := 0;
      while i < |animals|
        invariant 0 <= i <= |animals| == |h0|
        invariant forall k :: 0 <= k < |animals| ==> animals[k].State() == if k < i then Endure(h0[k]) else h0[k]
        invariant IsSubsequence(survivingAnimals, animals[..i])
        invariant HerdOf(survivingAnimals) == Survivors(h0[..i])
      {
        assert animals[i] !in animals[..i];
        survivingAnimals := EndureAt(i, survivingAnimals, h0);
        i := i + 1;
      }
      assert animals[..i] == animals && h0[..i] == h0;
    }

    /** One turn of the loop in `survive`. */
    method EndureAt(i: nat, surviving: seq<Animal>, ghost h0: seq<Creature>) returns (next: seq<Animal>)
      requires i < |animals| == |h0| && animals[i] !in animals[..i]
      requires animals[i].State() == h0[i]
      requires IsSubsequence(surviving, animals[..i])
      requires HerdOf(surviving) == Survivors(h0[..i])
      modifies animals[i]
      ensures animals[i].State() == Endure(h0[i])
      ensures IsSubsequence(next, animals[..i + 1])
      ensures HerdOf(next) == Survivors(h0[..i + 1])
    {
      var animal := animals[i];
      SubsequenceMembers(surviving, animals[..i]);
      ghost var before := HerdOf(surviving);
      Starve(animal);
      assert HerdOf(surviving) == before;
      SurvivorsStep(h0, i);
      assert animals[..i + 1] == animals[..i] + [animal];
      if animal.alive {
        next := surviving + [animal];
        HerdOfAppend(surviving, [animal]);
        SubsequenceKeep(surviving, animals[..i], animal);
      } else {
        next := surviving;
        SubsequenceSkip(surviving, animals[..i], animal);
      }
    }

    /** The body of the loop in `survive` for one animal: a live animal that
        has eaten nothing gets hungrier, and dies once its hunger reaches its
        starvation level. */
    static method Starve(animal: Animal)
      modifies animal
      ensures animal.State() == Endure(old(animal.State()))
    {
      if animal.alive {
        if animal.eaten == 0 {
          animal.hunger := animal.hunger + 1;
        }
        if animal.hunger >= animal.starvationLevel {
          animal.alive := false;
        }
      }
    }

    /** `reproduce`: each live animal has the litter drawn for it; the kits
        are appended after every animal has bred, so the old list stays a
        prefix. */
    method Reproduce(litters: seq<nat>)
      requires Valid() && |litters| == |animals|
      modifies this, animals
      ensures Valid() && field == old(field) && Grass() == old(Grass())
      ensures |animals| >= |old(animals)| && animals[..|old(animals)|] == old(animals)
      ensures forall k :: |old(animals)| <= k < |animals| ==> fresh(animals[k])
      ensures Herd() == Breed(old(Herd()), litters)
    {
      ghost var h0 := Herd();
      var born := BreedEach(litters);
      HerdOfAppend(animals, born);
      DistinctAppend(animals, born);
      BreedOnField(h0, litters, ARRSIZE);
      var parents := animals;
      animals := animals + born;
      assert forall k :: |parents| <= k < |animals| ==> animals[k] == born[k - |parents|] && born[k - |parents|] in born;
    }

    /** The loop of `reproduce` over the animals, returning the kits in
        birth order. */
    method BreedEach(litters: seq<nat>) returns (born: seq<Animal>)
      requires Distinct(animals) && |litters| == |animals|
      modifies animals
      ensures HerdOf(animals) == Parents(old(HerdOf(animals)), litters)
      ensures HerdOf(born) == Born(old(HerdOf(animals)), litters)
      ensures Distinct(born) && forall b :: b in born ==> fresh(b) && b !in animals
    {
      ghost var h0 := HerdOf(animals);
      born := [];
      var i := 0;
      while i < |animals|
        invariant 0 <= i <= |animals| && |h0| == |animals| == |litters|
        invariant animals == old(animals) && Distinct(animals)
        invariant HerdOf(animals) == BredUpTo(h0, litters, i)
        invariant Distinct(born) && forall k :: 0 <= k < |born| ==> fresh(born[k]) && born[k] !in animals
        invariant HerdOf(born) == Born(h0[..i], litters[..i])
      {
        var kits := BreedAt(i, litters, h0, born);
        assert forall k :: |born| <= k < |born + kits| ==> (born + kits)[k] == kits[k - |born|];
        born := born + kits;
        i := i + 1;
      }
      BredUpToParents(h0, litters, i);
      assert h0[..i] == h0 && litters[..i] == litters && h0[i..] == [];
    }

    /** One turn of the loop in `reproduce`: animal i has its litter, which
        takes the state from the first i animals having bred to the first i + 1. */
    method BreedAt(i: nat, litters: seq<nat>, ghost h0: seq<Creature>, ghost born: seq<Animal>) returns (kits: seq<Animal>)
      requires i < |animals| == |h0| == |litters| && Distinct(animals)
      requires HerdOf(animals) == BredUpTo(h0, litters, i)
      requires Distinct(born) && HerdOf(born) == Born(h0[..i], litters[..i])
      requires forall k :: 0 <= k < |born| ==> born[k] !in animals
      modifies animals[i]
      ensures HerdOf(animals) == BredUpTo(h0, litters, i + 1)
      ensures Distinct(born + kits) && HerdOf(born + kits) == Born(h0[..i + 1], litters[..i + 1])
      ensures forall k :: 0 <= k < |kits| ==> fresh(kits[k]) && kits[k] !in animals
    {
      var animal := animals[i];
      ghost var states, bornHerd := HerdOf(animals), HerdOf(born);
      BornStep(h0, litters, i);
      assert animal !in born;
      if animal.alive {
        kits := Litter(animal, litters[i]);
      } else {
        kits := [];
      }
      forall k | 0 <= k < |animals|
        ensures animals[k].State() == states[i := Bred(h0[i], litters[i]).0][k]
      {
        if k != i {
          assert animals[k] != animal;
        }
      }
      assert HerdOf(born) == bornHerd;
      HerdOfAppend(born, kits);
      DistinctAppend(born, kits);
      assert forall k :: 0 <= k < |kits| ==> kits[k] in kits;
    }

    /** `for _ in range(litter): offspring = animal.reproduce()`, keeping
        every offspring. */
    static method Litter(animal: Animal, litter: nat) returns (kits: seq<Animal>)
      modifies animal
      ensures (animal.State(), HerdOf(kits)) == Brood(old(animal.State()), litter)
      ensures Distinct(kits) && forall b :: b in kits ==> fresh(b)
    {
      kits := [];
      var j := 0;
      while j < litter
        invariant 0 <= j <= litter
        invariant (animal.State(), HerdOf(kits)) == Brood(old(animal.State()), j)
        invariant Distinct(kits) && forall b :: b in kits ==> fresh(b)
      {
        ghost var before, parent := HerdOf(kits), animal.State();
        assert Brood(old(animal.State()), j + 1) ==
          if parent.eaten >= parent.reproductionLevel then (parent.(eaten := 0), before + [parent.(eaten := 0)]) else (parent, before);
        var offspring := animal.Reproduce();
        assert HerdOf(kits) == before;
        if offspring != null {
          HerdOfAppend(kits, [offspring]);
          assert HerdOf([offspring]) == [parent.(eaten := 0)];
          kits := kits + [offspring];
          assert HerdOf(kits) == before + [parent.(eaten := 0)];
          assert animal.State() == parent.(eaten := 0);
        } else {
          assert animal.State() == parent;
        }
        j := j + 1;
      }
    }

    /** `grow`: the field becomes the cell-wise maximum of itself and the
        regrowth mask. */
    method Grow(mask: Grid)
      requires Valid() && IsBinary(mask, ARRSIZE)
      modifies this
      ensures Valid() && animals == old(animals) && Herd() == old(Herd())
      ensures Grass() == MaxMerge(old(Grass()), mask, ARRSIZE)
    {
      field := Maximum(field, mask);
    }

    /** `generation`: move, eat, survive, reproduce, grow. */
    method Generation(steps: seq<(int, int)>, mask: Grid, litters: seq<nat>)
      requires Valid() && |steps| == |animals| && AreSteps(steps) && IsBinary(mask, ARRSIZE)
      requires |litters| == |Survivors(Feast(Grass(), Roam(Herd(), steps, ARRSIZE), ARRSIZE).1)|
      modifies this, field, animals
      ensures Valid()
      ensures (Grass(), Herd()) == Tick(old(Grass()), old(Herd()), ARRSIZE, steps, mask, litters)
    {
      Move(steps);
      Eat();
      Survive();
      Reproduce(litters);
      Grow(mask);
    }
  }

  /** Adding one rabbit to the index keeps the objects in step with the
      positions. */
  lemma LocatedAdd(m: map<(int, int), seq<Animal>>, s: seq<Animal>, index: map<(int, int), seq<nat>>, pos: (int, int), i: nat)
    requires i < |s| && Located(m, s, index)
    ensures Located(m[pos := (if pos in m then m[pos] else []) + [s[i]]], s, index[pos := (if pos in index then index[pos] else []) + [i]])
  {
  }
}
