/** alife.py: the same rabbits and grass as the static-reproduction engine,
    but with a generic `Animal` class whose constructor sets hunger and
    breeding traits and leaves the position and the eaten counter unset.
    The field's loops update the animals in place; the grass is a numpy
    array, here an `array2<int>`. Each `Field` method is proved to compute
    the corresponding function of RabbitRules on the field's state. */
module Alife {
  import opened Meadow
  import opened Lists
  import opened RabbitRules

  /** The side of the square field. */
  const ARRSIZE: int := 200
  /** The largest litter an animal can have in one generation. */
  const OFFSPRING: nat := 2

  /** The traits the constructor sets. They are constants of the object,
      and a kit inherits its parent's. */
  datatype Traits = Traits(maxHunger: int, starvationLevel: int, reproductionLevel: int, hunger: int, alive: bool)

  class Animal {
    var x: int
    var y: int
    var eaten: int
    /** The five traits are set by the constructor and assigned nowhere
        else in alife.py, so they are constants of the object. */
    const maxHunger: int
    const starvationLevel: int
    const reproductionLevel: int
    const hunger: int
    const alive: bool
    /** Whether the Python object has its `x` and `y` attributes yet. */
    ghost var hasPosition: bool
    /** Whether the Python object has its `eaten` attribute yet. */
    ghost var hasEaten: bool

    /** `Animal(type)`: sets the five traits; `type` is not used. The
        position and the eaten counter do not exist yet. */
    constructor (kind: string)
      ensures GetTraits() == Traits(1, 1, 1, 0, true)
      ensures !hasPosition && !hasEaten
    {
      maxHunger, starvationLevel, reproductionLevel, hunger, alive := 1, 1, 1, 0, true;
      hasPosition, hasEaten := false, false;
    }

    /** `copy.deepcopy`: a new animal with the same attributes. */
    constructor Copy(other: Animal)
      ensures x == other.x && y == other.y && eaten == other.eaten
      ensures GetTraits() == other.GetTraits()
      ensures hasPosition == other.hasPosition && hasEaten == other.hasEaten
    {
      x, y, eaten := other.x, other.y, other.eaten;
      maxHunger, starvationLevel, reproductionLevel := other.maxHunger, other.starvationLevel, other.reproductionLevel;
      hunger, alive := other.hunger, other.alive;
      hasPosition, hasEaten := other.hasPosition, other.hasEaten;
    }

    ghost function State(): Bunny
      reads this
    {
      Bunny(x, y, eaten)
    }

    function GetTraits(): Traits {
      Traits(maxHunger, starvationLevel, reproductionLevel, hunger, alive)
    }

    /** `reproduce`: the counter is set to 0 (creating it if it was not
        there) and the kit is a copy of the animal made afterwards. */
    method Reproduce() returns (kit: Animal)
      modifies this
      ensures State() == old(State()).(eaten := 0)
      ensures hasPosition == old(hasPosition) && hasEaten
      ensures fresh(kit) && kit.State() == State() && kit.GetTraits() == GetTraits()
      ensures kit.hasPosition == hasPosition && kit.hasEaten
    {
      eaten := 0;
      hasEaten := true;
      kit := new Animal.Copy(this);
    }

    /** `eat`: the amount is added to the counter, which must exist. */
    method Eat(amount: int)
      requires hasEaten
      modifies this
      ensures State() == old(State()).(eaten := old(eaten) + amount)
      ensures hasPosition == old(hasPosition) && hasEaten
    {
      eaten := eaten + amount;
    }

    /** `move`: a step of (dx, dy) on the torus from a position that must
        exist, after which the animal has eaten nothing. */
    method Move(dx: int, dy: int)
      requires hasPosition && IsStep(dx) && IsStep(dy)
      modifies this
      ensures State() == Hop(old(State()), dx, dy, ARRSIZE)
      ensures 0 <= x < ARRSIZE && 0 <= y < ARRSIZE && eaten == 0
      ensures hasPosition && hasEaten
    {
      x := (x + dx) % ARRSIZE;
      y := (y + dy) % ARRSIZE;
      eaten := 0;
      hasEaten := true;
    }
  }

  /** Every animal of the list has its position, which `move` and `eat`
      read. */
  ghost predicate Placed(s: seq<Animal>)
    reads s
  {
    forall r :: r in s ==> r.hasPosition
  }

  /** Every animal of the list has its eaten counter, which `eat` and
      `survive` read; `move` and `reproduce` create it. */
  ghost predicate Counted(s: seq<Animal>)
    reads s
  {
    forall r :: r in s ==> r.hasEaten
  }
  /** The values of a list of rabbits. */
  ghost function HerdOf(s: seq<Animal>): (h: seq<Bunny>)
    reads s
    ensures |h| == |s|
  {
    seq(|s|, k requires 0 <= k < |s| reads s => s[k].State())
  }

  lemma HerdOfAppend(a: seq<Animal>, b: seq<Animal>)
    ensures HerdOf(a + b) == HerdOf(a) + HerdOf(b)
  {
  }

  /** The traits of a list of rabbits. */
  function TraitsOf(s: seq<Animal>): (t: seq<Traits>)
    ensures |t| == |s|
  {
    seq(|s|, k requires 0 <= k < |s| => s[k].GetTraits())
  }

  lemma TraitsOfAppend(a: seq<Animal>, b: seq<Animal>)
    ensures TraitsOf(a + b) == TraitsOf(a) + TraitsOf(b)
  {
  }

  /** `[r for r in rabbits if r.eaten > 0]` on the objects. */
  function KeepFed(s: seq<Animal>): (r: seq<Animal>)
    reads s
  {
    if s == [] then [] else KeepFed(s[..|s| - 1]) + (if s[|s| - 1].eaten > 0 then [s[|s| - 1]] else [])
  }

  /** The filter keeps exactly the rabbit objects that ate, in order, and
      their values are what `Fed` keeps of the list's values. */
  lemma KeepFedFilters(s: seq<Animal>)
    ensures forall r :: r in KeepFed(s) <==> r in s && r.eaten > 0
    ensures IsSubsequence(KeepFed(s), s)
    ensures HerdOf(KeepFed(s)) == Fed(HerdOf(s))
  {
    KeepFedMembers(s);
    KeepFedOrder(s);
    KeepFedValues(s);
  }

  lemma {:induction false} KeepFedMembers(s: seq<Animal>)
    ensures forall r :: r in KeepFed(s) <==> r in s && r.eaten > 0
  {
    if s != [] {
      var front := s[..|s| - 1];
      assert s == front + [s[|s| - 1]];
      KeepFedMembers(front);
    }
  }

  lemma {:induction false} KeepFedOrder(s: seq<Animal>)
    ensures IsSubsequence(KeepFed(s), s)
  {
    if s != [] {
      var front, last := s[..|s| - 1], s[|s| - 1];
      assert s == front + [last];
      KeepFedOrder(front);
      if last.eaten > 0 {
        SubsequenceKeep(KeepFed(front), front, last);
      } else {
        assert KeepFed(s) == KeepFed(front);
        SubsequenceSkip(KeepFed(front), front, last);
      }
    }
  }

  lemma {:induction false} KeepFedValues(s: seq<Animal>)
    ensures HerdOf(KeepFed(s)) == Fed(HerdOf(s))
  {
    if s != [] {
      var front, last := s[..|s| - 1], s[|s| - 1];
      KeepFedValues(front);
      assert HerdOf(s)[..|s| - 1] == HerdOf(front);
      if last.eaten > 0 {
        HerdOfAppend(KeepFed(front), [last]);
      }
    }
  }

  class Field {
    var field: array2<int>
    var rabbits: seq<Animal>

    ghost predicate Valid()
      reads this, field, rabbits
    {
      && field.Length0 == ARRSIZE && field.Length1 == ARRSIZE
      && IsBinary(GridOf(field), ARRSIZE)
      && Distinct(rabbits)
      && Placed(rabbits)
      && OnField(HerdOf(rabbits), ARRSIZE)
    }

    ghost function Grass(): Grid
      reads this, field
    {
      GridOf(field)
    }

    ghost function Herd(): seq<Bunny>
      reads this, rabbits
    {
      HerdOf(rabbits)
    }

    /** A field of grass everywhere and no rabbits yet. */
    constructor ()
      ensures Valid() && fresh(field)
      ensures Grass() == Lush(ARRSIZE) && rabbits == []
    {
      field := new int[ARRSIZE, ARRSIZE]((i, j) => 1);
      rabbits := [];
      new;
      assert forall i :: 0 <= i < ARRSIZE ==> GridOf(field)[i] == Lush(ARRSIZE)[i];
    }

    /** `add_rabbit`: one rabbit appended at the end; nothing else changes. */
    method AddRabbit(rabbit: Animal)
      requires Valid() && rabbit !in rabbits
      requires rabbit.hasPosition
      requires 0 <= rabbit.x < ARRSIZE && 0 <= rabbit.y < ARRSIZE
      modifies this
      ensures Valid() && field == old(field)
      ensures rabbits == old(rabbits) + [rabbit]
      ensures Herd() == old(Herd()) + [rabbit.State()]
    {
      rabbits := rabbits + [rabbit];
      assert HerdOf(rabbits)[..|rabbits| - 1] == HerdOf(old(rabbits));
    }

    /** `move`: every rabbit hops with its own draws. */
    method Move(steps: seq<(int, int)>)
      requires Valid() && |steps| == |rabbits| && AreSteps(steps)
      modifies rabbits
      ensures Valid() && Counted(rabbits) && Grass() == old(Grass())
      ensures Herd() == HopAll(old(Herd()), steps, ARRSIZE)
    {
      var i := 0;
      while i < |rabbits|
        invariant 0 <= i <= |rabbits| && Placed(rabbits)
        invariant forall k :: 0 <= k < i ==> rabbits[k].hasEaten
        invariant forall k :: 0 <= k < i ==> rabbits[k].State() == Hop(old(rabbits[k].State()), steps[k].0, steps[k].1, ARRSIZE)
        invariant forall k :: i <= k < |rabbits| ==> rabbits[k].State() == old(rabbits[k].State())
      {
        rabbits[i].Move(steps[i].0, steps[i].1);
        i := i + 1;
      }
      assert forall k :: 0 <= k < |rabbits| ==> Herd()[k] == HopAll(old(Herd()), steps, ARRSIZE)[k];
    }

    /** `eat`: every rabbit, in list order, eats what its cell holds and
        the cell is bared. */
    method Eat()
      requires Valid() && Counted(rabbits)
      modifies field, rabbits
      ensures Valid() && Counted(rabbits)
      ensures Grass() == Graze(old(Grass()), old(Herd()), ARRSIZE).0
      ensures Herd() == Graze(old(Grass()), old(Herd()), ARRSIZE).1
    {
      ghost var g0, h0 := Grass(), Herd();
      var i := 0;
      while i < |rabbits|
        invariant 0 <= i <= |rabbits| && Distinct(rabbits) && Placed(rabbits) && Counted(rabbits) && |h0| == |rabbits|
        invariant Grass() == GrazePrefix(g0, h0, ARRSIZE, i).0
        invariant Herd() == GrazePrefix(g0, h0, ARRSIZE, i).1
      {
        EatAt(i, g0, h0);
        i := i + 1;
      }
      GrazeStaysBinary(g0, h0, ARRSIZE);
    }

    /** One turn of the loop in `eat`: rabbit i adds its cell's grass to
        its counter and the cell is bared, which takes the state from the
        first i rabbits having eaten to the first i + 1. */
    method EatAt(i: nat, ghost g0: Grid, ghost h0: seq<Bunny>)
      requires field.Length0 == ARRSIZE && field.Length1 == ARRSIZE
      requires IsGrid(g0, ARRSIZE) && OnField(h0, ARRSIZE)
      requires i < |rabbits| == |h0| && Distinct(rabbits) && Placed(rabbits) && Counted(rabbits)
      requires Grass() == GrazePrefix(g0, h0, ARRSIZE, i).0 && Herd() == GrazePrefix(g0, h0, ARRSIZE, i).1
      modifies field, rabbits[i]
      ensures Placed(rabbits) && Counted(rabbits)
      ensures Grass() == GrazePrefix(g0, h0, ARRSIZE, i + 1).0 && Herd() == GrazePrefix(g0, h0, ARRSIZE, i + 1).1
    {
      ghost var g, h := Grass(), Herd();
      var rabbit := rabbits[i];
      assert rabbit.x == h0[i].x && rabbit.y == h0[i].y;
      GrazeStep(g0, h0, ARRSIZE, i);
      rabbit.Eat(field[rabbit.x, rabbit.y]);
      Bare(field, rabbit.x, rabbit.y);
      forall k | 0 <= k < |rabbits|
        ensures rabbits[k].State() == h[i := h[i].(eaten := h[i].eaten + g[h0[i].x][h0[i].y])][k]
      {
        if k != i {
          assert rabbits[k] != rabbit;
        }
      }
    }

    /** `survive`: the rabbits that ate stay, in order; the rest are dropped. */
    method Survive()
      requires Valid() && Counted(rabbits)
      modifies this
      ensures Valid() && Counted(rabbits) && field == old(field) && Grass() == old(Grass())
      ensures forall r :: r in rabbits <==> r in old(rabbits) && r.eaten > 0
      ensures IsSubsequence(rabbits, old(rabbits))
      ensures Herd() == Fed(old(Herd()))
    {
      var kept := KeepFed(rabbits);
      KeepFedFilters(rabbits);
      SubsequenceDistinct(kept, rabbits);
      FedOnField(Herd(), ARRSIZE);
      rabbits := kept;
    }

    /** `reproduce`: each rabbit has `litters[k]` kits; the kits are appended
        after every rabbit has bred, so the old list stays a prefix. */
    method Reproduce(litters: seq<nat>)
      requires Valid() && |litters| == |rabbits|
      requires forall k :: 0 <= k < |litters| ==> litters[k] <= OFFSPRING
      modifies this, rabbits
      ensures Valid() && field == old(field) && Grass() == old(Grass())
      ensures old(Counted(rabbits)) ==> Counted(rabbits)
      ensures |rabbits| >= |old(rabbits)| && rabbits[..|old(rabbits)|] == old(rabbits)
      ensures forall k :: |old(rabbits)| <= k < |rabbits| ==> fresh(rabbits[k])
      ensures Herd() == Breed(old(Herd()), litters)
      ensures TraitsOf(rabbits) == old(TraitsOf(rabbits)) + Spread(old(TraitsOf(rabbits)), litters)
    {
      ghost var h0, ts0 := Herd(), TraitsOf(rabbits);
      var born := BreedEach(litters);
      var parents := rabbits;
      TraitsOfAppend(parents, born);
      assert Placed(parents + born);
      assert Counted(parents) ==> Counted(parents + born);
      HerdOfAppend(parents, born);
      DistinctAppend(parents, born);
      BreedOnField(h0, litters, ARRSIZE);
      rabbits := parents + born;
      assert forall k :: |parents| <= k < |rabbits| ==> rabbits[k] == born[k - |parents|];
      assert TraitsOf(rabbits) == ts0 + Spread(ts0, litters);
    }

    /** The loop of `reproduce` over the rabbits, returning the kits in
        birth order. */
    method BreedEach(litters: seq<nat>) returns (born: seq<Animal>)
      requires Distinct(rabbits) && Placed(rabbits) && |litters| == |rabbits|
      modifies rabbits
      ensures Placed(rabbits) && Placed(born) && Counted(born)
      ensures old(Counted(rabbits)) ==> Counted(rabbits)
      ensures HerdOf(rabbits) == Parents(old(HerdOf(rabbits)), litters)
      ensures HerdOf(born) == Litters(old(HerdOf(rabbits)), litters)
      ensures TraitsOf(born) == Spread(TraitsOf(rabbits), litters)
      ensures Distinct(born) && forall k :: 0 <= k < |born| ==> fresh(born[k]) && born[k] !in rabbits
    {
      ghost var h0, ts0 := HerdOf(rabbits), TraitsOf(rabbits);
      born := [];
      var i := 0;
      while i < |rabbits|
        invariant 0 <= i <= |rabbits| && |h0| == |rabbits| == |litters|
        invariant rabbits == old(rabbits) && Distinct(rabbits) && Placed(rabbits) && Placed(born) && Counted(born)
        invariant old(Counted(rabbits)) ==> Counted(rabbits)
        invariant HerdOf(rabbits) == BredUpTo(h0, litters, i)
        invariant Distinct(born) && forall k :: 0 <= k < |born| ==> fresh(born[k]) && born[k] !in rabbits
        invariant HerdOf(born) == Litters(h0[..i], litters[..i])
        invariant TraitsOf(born) == Spread(ts0[..i], litters[..i])
      {
        born := BreedAt(i, litters, h0, ts0, born);
        i := i + 1;
      }
      BredUpToParents(h0, litters, i);
      assert h0[..i] == h0 && h0[i..] == [];
      assert litters[..i] == litters && ts0[..i] == ts0;
    }

    /** One turn of the loop in `reproduce`: rabbit i has its litter, which
        takes the state from the first i rabbits having bred to the first i + 1. */
    method BreedAt(i: nat, litters: seq<nat>, ghost h0: seq<Bunny>, ghost ts0: seq<Traits>, born: seq<Animal>) returns (next: seq<Animal>)
      requires i < |rabbits| == |h0| == |litters| && Distinct(rabbits) && Placed(rabbits) && Placed(born) && Counted(born)
      requires HerdOf(rabbits) == BredUpTo(h0, litters, i)
      requires Distinct(born) && HerdOf(born) == Litters(h0[..i], litters[..i])
      requires forall k :: 0 <= k < |born| ==> born[k] !in rabbits
      requires ts0 == TraitsOf(rabbits) && TraitsOf(born) == Spread(ts0[..i], litters[..i])
      modifies rabbits[i]
      ensures HerdOf(rabbits) == BredUpTo(h0, litters, i + 1)
      ensures TraitsOf(next) == Spread(ts0[..i + 1], litters[..i + 1])
      ensures Placed(rabbits) && Placed(next) && Counted(next)
      ensures old(Counted(rabbits)) ==> Counted(rabbits)
      ensures Distinct(next) && HerdOf(next) == Litters(h0[..i + 1], litters[..i + 1])
      ensures |born| <= |next| && forall k :: 0 <= k < |born| ==> next[k] == born[k]
      ensures forall k :: |born| <= k < |next| ==> fresh(next[k])
      ensures forall k :: 0 <= k < |next| ==> next[k] !in rabbits
    {
      var rabbit := rabbits[i];
      ghost var states, bornHerd := HerdOf(rabbits), HerdOf(born);
      LittersStep(h0, litters, i);
      SpreadStep(ts0, litters, i);
      assert rabbit !in born;
      var kits := Litter(rabbit, litters[i]);
      forall k | 0 <= k < |rabbits|
        ensures rabbits[k].State() == states[i := Parent(h0[i], litters[i])][k]
      {
        if k != i {
          assert rabbits[k] != rabbit;
        }
      }
      assert HerdOf(born) == bornHerd;
      HerdOfAppend(born, kits);
      TraitsOfAppend(born, kits);
      DistinctAppend(born, kits);
      next := born + kits;
      assert forall k :: |born| <= k < |next| ==> next[k] == kits[k - |born|];
    }

    /** The inner loop of `reproduce`: `litter` calls of the rabbit's
        `reproduce`, collecting the kits. */
    method Litter(rabbit: Animal, litter: nat) returns (kits: seq<Animal>)
      requires rabbit.hasPosition
      modifies rabbit
      ensures rabbit.hasPosition && rabbit.hasEaten == (old(rabbit.hasEaten) || litter > 0)
      ensures Placed(kits) && Counted(kits)
      ensures rabbit.State() == Parent(old(rabbit.State()), litter)
      ensures Distinct(kits) && forall k :: 0 <= k < |kits| ==> fresh(kits[k])
      ensures HerdOf(kits) == Kits(old(rabbit.State()), litter)
      ensures TraitsOf(kits) == Repeat(rabbit.GetTraits(), litter)
    {
      kits := [];
      var t := 0;
      while t < litter
        invariant 0 <= t <= litter && rabbit.hasPosition && Placed(kits) && Counted(kits)
        invariant rabbit.hasEaten == (old(rabbit.hasEaten) || t > 0)
        invariant rabbit.State() == Parent(old(rabbit.State()), t)
        invariant Distinct(kits) && forall k :: 0 <= k < |kits| ==> fresh(kits[k])
        invariant HerdOf(kits) == Kits(old(rabbit.State()), t)
        invariant TraitsOf(kits) == Repeat(rabbit.GetTraits(), t)
      {
        ghost var before := HerdOf(kits);
        assert rabbit !in kits;
        var kit := rabbit.Reproduce();
        assert HerdOf(kits) == before && HerdOf([kit]) == [kit.State()];
        HerdOfAppend(kits, [kit]);
        TraitsOfAppend(kits, [kit]);
        assert Kits(old(rabbit.State()), t + 1) == Kits(old(rabbit.State()), t) + [old(rabbit.State()).(eaten := 0)];
        kits := kits + [kit];
        t := t + 1;
      }
    }

    /** `grow`: the field becomes `np.maximum(field, growloc)` for the 0/1
        regrowth mask. */
    method Grow(mask: Grid)
      requires Valid() && IsBinary(mask, ARRSIZE)
      modifies this
      ensures Valid() && rabbits == old(rabbits) && Herd() == old(Herd()) && fresh(field)
      ensures Grass() == MaxMerge(old(Grass()), mask, ARRSIZE)
    {
      field := Maximum(field, mask);
    }

    /** After `reproduce` and `survive`, only rabbits from before breeding
        that had no kits are left: kits and parents have eaten nothing. */
    lemma CullAfterBreeding(start: seq<Animal>, bred: seq<Animal>, kept: seq<Animal>, h: seq<Bunny>, litters: seq<nat>)
      requires |h| == |start| == |litters| && |start| <= |bred| && bred[..|start|] == start
      requires HerdOf(bred) == Breed(h, litters)
      requires forall r :: r in kept ==> r in bred && r.eaten > 0
      ensures forall r :: r in kept ==> r in start && r.eaten > 0
      ensures forall k :: 0 <= k < |start| && start[k] in kept ==> litters[k] == 0
    {
      LittersShape(h, litters);
      forall r | r in kept
        ensures r in start
      {
        var k :| 0 <= k < |bred| && bred[k] == r;
        assert HerdOf(bred)[k] == r.State();
        assert k < |start|;
        assert bred[k] == start[k];
      }
      forall k | 0 <= k < |start| && start[k] in kept
        ensures litters[k] == 0
      {
        assert bred[k] == start[k];
        assert HerdOf(bred)[k] == Parent(h[k], litters[k]);
      }
    }

    /** `generation`: move, eat, grow, reproduce, survive. Afterwards every
        rabbit is one from before the tick that ate and had no kits. */
    method Generation(steps: seq<(int, int)>, mask: Grid, litters: seq<nat>)
      requires Valid() && |steps| == |rabbits| && AreSteps(steps) && IsBinary(mask, ARRSIZE)
      requires |litters| == |rabbits| && forall k :: 0 <= k < |litters| ==> litters[k] <= OFFSPRING
      modifies this, field, rabbits
      ensures Valid() && Counted(rabbits)
      ensures Grass() == Tick(old(Grass()), old(Herd()), ARRSIZE, steps, mask, litters).0
      ensures Herd() == Tick(old(Grass()), old(Herd()), ARRSIZE, steps, mask, litters).1
      ensures forall r :: r in rabbits ==> r in old(rabbits) && r.eaten > 0
      ensures forall k :: 0 <= k < |old(rabbits)| && old(rabbits)[k] in rabbits ==> litters[k] == 0
    {
      ghost var start, g0, h0 := rabbits, Grass(), Herd();
      Move(steps);
      ghost var h1 := Herd();
      assert Grass() == g0;
      Eat();
      ghost var g2, h2 := Grass(), Herd();
      assert (g2, h2) == Graze(g0, h1, ARRSIZE);
      Grow(mask);
      ghost var g3 := Grass();
      assert g3 == MaxMerge(g2, mask, ARRSIZE);
      assert Herd() == h2 && rabbits == start;
      Reproduce(litters);
      ghost var bred, bredHerd := rabbits, Herd();
      assert bred[..|start|] == start;
      Survive();
      assert HerdOf(bred) == bredHerd;
      assert Herd() == Fed(Breed(h2, litters)) && Grass() == g3;
      assert Tick(g0, h0, ARRSIZE, steps, mask, litters) == (g3, Fed(Breed(h2, litters)));
      CullAfterBreeding(start, bred, rabbits, h2, litters);
    }
  }
}
