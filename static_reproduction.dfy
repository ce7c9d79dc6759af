/** sample_code/alife_C_static-Repoduction.py: rabbits hop on a field of
    grass, eat, breed and are culled when they ate nothing. Rabbits are
    objects that the field's loops update in place; the grass is a numpy
    array, here an `array2<int>`. Each `Field` method is proved to compute
    the corresponding function of RabbitRules on the field's state. */
module StaticReproduction {
  import opened Meadow
  import opened Lists
  import opened RabbitRules

  /** The side of the square field. */
  const ARRSIZE: int := 200
  /** The largest litter a rabbit can have in one generation. */
  const OFFSPRING: nat := 2

  class Rabbit {
    var x: int
    var y: int
    var eaten: int

    /** `Rabbit()`: the two `rnd.randrange(0, ARRSIZE)` draws are the
        parameters; a new rabbit has eaten nothing. */
    constructor (x: int, y: int)
      requires 0 <= x < ARRSIZE && 0 <= y < ARRSIZE
      ensures this.x == x && this.y == y && eaten == 0
    {
      this.x, this.y, eaten := x, y, 0;
    }

    /** `copy.deepcopy`: a new rabbit with the same attributes. */
    constructor Copy(other: Rabbit)
      ensures x == other.x && y == other.y && eaten == other.eaten
    {
      x, y, eaten := other.x, other.y, other.eaten;
    }

    ghost function State(): Bunny
      reads this
    {
      Bunny(x, y, eaten)
    }

    /** `reproduce`: the rabbit's counter drops to 0, and the kit is a copy
        of it made afterwards. */
    method Reproduce() returns (kit: Rabbit)
      modifies this
      ensures State() == old(State()).(eaten := 0)
      ensures fresh(kit) && kit.State() == State()
    {
      eaten := 0;
      kit := new Rabbit.Copy(this);
    }

    /** `eat`: the amount is added to the counter, and nothing else changes. */
    method Eat(amount: int)
      modifies this
      ensures State() == old(State()).(eaten := old(eaten) + amount)
    {
      eaten := eaten + amount;
    }

    /** `move`: a step of (dx, dy) on the torus, after which the rabbit has
        eaten nothing. */
    method Move(dx: int, dy: int)
      requires IsStep(dx) && IsStep(dy)
      modifies this
      ensures State() == Hop(old(State()), dx, dy, ARRSIZE)
      ensures 0 <= x < ARRSIZE && 0 <= y < ARRSIZE && eaten == 0
    {
      x := (x + dx) % ARRSIZE;
      y := (y + dy) % ARRSIZE;
      eaten := 0;
    }
  }

  /** The values of a list of rabbits. */
  ghost function HerdOf(s: seq<Rabbit>): (h: seq<Bunny>)
    reads s
    ensures |h| == |s|
  {
    seq(|s|, k requires 0 <= k < |s| reads s => s[k].State())
  }

  lemma HerdOfAppend(a: seq<Rabbit>, b: seq<Rabbit>)
    ensures HerdOf(a + b) == HerdOf(a) + HerdOf(b)
  {
  }

  /** `[r for r in rabbits if r.eaten > 0]` on the objects. */
  function KeepFed(s: seq<Rabbit>): (r: seq<Rabbit>)
    reads s
  {
    if s == [] then [] else KeepFed(s[..|s| - 1]) + (if s[|s| - 1].eaten > 0 then [s[|s| - 1]] else [])
  }

  /** The filter keeps exactly the rabbit objects that ate, in order, and
      their values are what `Fed` keeps of the list's values. */
  lemma KeepFedFilters(s: seq<Rabbit>)
    ensures forall r :: r in KeepFed(s) <==> r in s && r.eaten > 0
    ensures IsSubsequence(KeepFed(s), s)
    ensures HerdOf(KeepFed(s)) == Fed(HerdOf(s))
  {
    KeepFedMembers(s);
    KeepFedOrder(s);
    KeepFedValues(s);
  }

  lemma {:induction false} KeepFedMembers(s: seq<Rabbit>)
    ensures forall r :: r in KeepFed(s) <==> r in s && r.eaten > 0
  {
    if s != [] {
      var front := s[..|s| - 1];
      assert s == front + [s[|s| - 1]];
      KeepFedMembers(front);
    }
  }

  lemma {:induction false} KeepFedOrder(s: seq<Rabbit>)
    ensures IsSubsequence(KeepFed(s), s)
  {
    if s != [] {
      var front, last := s[..|s| - 1], s[|s| - 1];
      assert s == front + [last];
      KeepFedOrder(front);
      if last.eaten > 0 {
        SubsequenceKeep(KeepFed(front), front, last);
      } else {
        assert KeepFed(s) == KeepFed(front);
        SubsequenceSkip(KeepFed(front), front, last);
      }
    }
  }

  lemma {:induction false} KeepFedValues(s: seq<Rabbit>)
    ensures HerdOf(KeepFed(s)) == Fed(HerdOf(s))
  {
    if s != [] {
      var front, last := s[..|s| - 1], s[|s| - 1];
      KeepFedValues(front);
      assert HerdOf(s)[..|s| - 1] == HerdOf(front);
      if last.eaten > 0 {
        HerdOfAppend(KeepFed(front), [last]);
      }
    }
  }

  class Field {
    var field: array2<int>
    var rabbits: seq<Rabbit>

    ghost predicate Valid()
      reads this, field, rabbits
    {
      && field.Length0 == ARRSIZE && field.Length1 == ARRSIZE
      && IsBinary(GridOf(field), ARRSIZE)
      && Distinct(rabbits)
      && OnField(HerdOf(rabbits), ARRSIZE)
    }

    ghost function Grass(): Grid
      reads this, field
    {
      GridOf(field)
    }

    ghost function Herd(): seq<Bunny>
      reads this, rabbits
    {
      HerdOf(rabbits)
    }

    /** A field of grass everywhere and no rabbits yet. */
    constructor ()
      ensures Valid() && fresh(field)
      ensures Grass() == Lush(ARRSIZE) && rabbits == []
    {
      field := new int[ARRSIZE, ARRSIZE]((i, j) => 1);
      rabbits := [];
      new;
      assert forall i :: 0 <= i < ARRSIZE ==> GridOf(field)[i] == Lush(ARRSIZE)[i];
    }

    /** `add_rabbit`: one rabbit appended at the end; nothing else changes. */
    method AddRabbit(rabbit: Rabbit)
      requires Valid() && rabbit !in rabbits
      requires 0 <= rabbit.x < ARRSIZE && 0 <= rabbit.y < ARRSIZE
      modifies this
      ensures Valid() && field == old(field)
      ensures rabbits == old(rabbits) + [rabbit]
      ensures Herd() == old(Herd()) + [rabbit.State()]
    {
      rabbits := rabbits + [rabbit];
      assert HerdOf(rabbits)[..|rabbits| - 1] == HerdOf(old(rabbits));
    }

    /** `move`: every rabbit hops with its own draws. */
    method Move(steps: seq<(int, int)>)
      requires Valid() && |steps| == |rabbits| && AreSteps(steps)
      modifies rabbits
      ensures Valid() && Grass() == old(Grass())
      ensures Herd() == HopAll(old(Herd()), steps, ARRSIZE)
    {
      var i := 0;
      while i < |rabbits|
        invariant 0 <= i <= |rabbits|
        invariant forall k :: 0 <= k < i ==> rabbits[k].State() == Hop(old(rabbits[k].State()), steps[k].0, steps[k].1, ARRSIZE)
        invariant forall k :: i <= k < |rabbits| ==> rabbits[k].State() == old(rabbits[k].State())
      {
        rabbits[i].Move(steps[i].0, steps[i].1);
        i := i + 1;
      }
      assert forall k :: 0 <= k < |rabbits| ==> Herd()[k] == HopAll(old(Herd()), steps, ARRSIZE)[k];
    }

    /** `eat`: every rabbit, in list order, eats what its cell holds and
        the cell is bared. */
    method Eat()
      requires Valid()
      modifies field, rabbits
      ensures Valid()
      ensures Grass() == Graze(old(Grass()), old(Herd()), ARRSIZE).0
      ensures Herd() == Graze(old(Grass()), old(Herd()), ARRSIZE).1
    {
      ghost var g0, h0 := Grass(), Herd();
      var i := 0;
      while i < |rabbits|
        invariant 0 <= i <= |rabbits| && Distinct(rabbits) && |h0| == |rabbits|
        invariant Grass() == GrazePrefix(g0, h0, ARRSIZE, i).0
        invariant Herd() == GrazePrefix(g0, h0, ARRSIZE, i).1
      {
        EatAt(i, g0, h0);
        i := i + 1;
      }
      GrazeStaysBinary(g0, h0, ARRSIZE);
    }

    /** One turn of the loop in `eat`: rabbit i adds its cell's grass to
        its counter and the cell is bared, which takes the state from the
        first i rabbits having eaten to the first i + 1. */
    method EatAt(i: nat, ghost g0: Grid, ghost h0: seq<Bunny>)
      requires field.Length0 == ARRSIZE && field.Length1 == ARRSIZE
      requires IsGrid(g0, ARRSIZE) && OnField(h0, ARRSIZE)
      requires i < |rabbits| == |h0| && Distinct(rabbits)
      requires Grass() == GrazePrefix(g0, h0, ARRSIZE, i).0 && Herd() == GrazePrefix(g0, h0, ARRSIZE, i).1
      modifies field, rabbits[i]
      ensures Grass() == GrazePrefix(g0, h0, ARRSIZE, i + 1).0 && Herd() == GrazePrefix(g0, h0, ARRSIZE, i + 1).1
    {
      ghost var g, h := Grass(), Herd();
      var rabbit := rabbits[i];
      assert rabbit.x == h0[i].x && rabbit.y == h0[i].y;
      GrazeStep(g0, h0, ARRSIZE, i);
      rabbit.Eat(field[rabbit.x, rabbit.y]);
      Bare(field, rabbit.x, rabbit.y);
      forall k | 0 <= k < |rabbits|
        ensures rabbits[k].State() == h[i := h[i].(eaten := h[i].eaten + g[h0[i].x][h0[i].y])][k]
      {
        if k != i {
          assert rabbits[k] != rabbit;
        }
      }
    }

    /** `survive`: the rabbits that ate stay, in order; the rest are dropped. */
    method Survive()
      requires Valid()
      modifies this
      ensures Valid() && field == old(field) && Grass() == old(Grass())
      ensures forall r :: r in rabbits <==> r in old(rabbits) && r.eaten > 0
      ensures IsSubsequence(rabbits, old(rabbits))
      ensures Herd() == Fed(old(Herd()))
    {
      var kept := KeepFed(rabbits);
      KeepFedFilters(rabbits);
      SubsequenceDistinct(kept, rabbits);
      FedOnField(Herd(), ARRSIZE);
      rabbits := kept;
    }

    /** `reproduce`: each rabbit has `litters[k]` kits; the kits are appended
        after every rabbit has bred, so the old list stays a prefix. */
    method Reproduce(litters: seq<nat>)
      requires Valid() && |litters| == |rabbits|
      requires forall k :: 0 <= k < |litters| ==> litters[k] <= OFFSPRING
      modifies this, rabbits
      ensures Valid() && field == old(field) && Grass() == old(Grass())
      ensures |rabbits| >= |old(rabbits)| && rabbits[..|old(rabbits)|] == old(rabbits)
      ensures forall k :: |old(rabbits)| <= k < |rabbits| ==> fresh(rabbits[k])
      ensures Herd() == Breed(old(Herd()), litters)
    {
      ghost var h0 := Herd();
      var born := BreedEach(litters);
      HerdOfAppend(rabbits, born);
      DistinctAppend(rabbits, born);
      BreedOnField(h0, litters, ARRSIZE);
      var parents := rabbits;
      rabbits := rabbits + born;
      assert forall k :: |parents| <= k < |rabbits| ==> rabbits[k] == born[k - |parents|] && born[k - |parents|] in born;
    }

    /** The loop of `reproduce` over the rabbits, returning the kits in
        birth order. */
    method BreedEach(litters: seq<nat>) returns (born: seq<Rabbit>)
      requires Distinct(rabbits) && |litters| == |rabbits|
      modifies rabbits
      ensures HerdOf(rabbits) == Parents(old(HerdOf(rabbits)), litters)
      ensures HerdOf(born) == Litters(old(HerdOf(rabbits)), litters)
      ensures Distinct(born) && forall b :: b in born ==> fresh(b) && b !in rabbits
    {
      ghost var h0 := HerdOf(rabbits);
      born := [];
      var i := 0;
      while i < |rabbits|
        invariant 0 <= i <= |rabbits| && |h0| == |rabbits| == |litters|
        invariant rabbits == old(rabbits) && Distinct(rabbits)
        invariant HerdOf(rabbits) == BredUpTo(h0, litters, i)
        invariant Distinct(born) && forall b :: b in born ==> fresh(b) && b !in rabbits
        invariant HerdOf(born) == Litters(h0[..i], litters[..i])
      {
        var kits := BreedAt(i, litters, h0, born);
        born := born + kits;
        i := i + 1;
      }
      BredUpToParents(h0, litters, i);
      assert h0[..i] == h0 && litters[..i] == litters && h0[i..] == [];
    }

    /** One turn of the loop in `reproduce`: rabbit i has its litter, which
        takes the state from the first i rabbits having bred to the first i + 1. */
    method BreedAt(i: nat, litters: seq<nat>, ghost h0: seq<Bunny>, ghost born: seq<Rabbit>) returns (kits: seq<Rabbit>)
      requires i < |rabbits| == |h0| == |litters| && Distinct(rabbits)
      requires HerdOf(rabbits) == BredUpTo(h0, litters, i)
      requires Distinct(born) && HerdOf(born) == Litters(h0[..i], litters[..i])
      requires forall b :: b in born ==> b !in rabbits
      modifies rabbits[i]
      ensures HerdOf(rabbits) == BredUpTo(h0, litters, i + 1)
      ensures Distinct(born + kits) && HerdOf(born + kits) == Litters(h0[..i + 1], litters[..i + 1])
      ensures forall b :: b in kits ==> fresh(b) && b !in rabbits
    {
      var rabbit := rabbits[i];
      ghost var states, bornHerd := HerdOf(rabbits), HerdOf(born);
      LittersStep(h0, litters, i);
      assert rabbit !in born;
      kits := Litter(rabbit, litters[i]);
      forall k | 0 <= k < |rabbits|
        ensures rabbits[k].State() == states[i := Parent(h0[i], litters[i])][k]
      {
        if k != i {
          assert rabbits[k] != rabbit;
        }
      }
      assert HerdOf(born) == bornHerd;
      HerdOfAppend(born, kits);
      DistinctAppend(born, kits);
    }

    /** The inner loop of `reproduce`: `litter` calls of the rabbit's
        `reproduce`, collecting the kits. */
    method Litter(rabbit: Rabbit, litter: nat) returns (kits: seq<Rabbit>)
      modifies rabbit
      ensures rabbit.State() == Parent(old(rabbit.State()), litter)
      ensures Distinct(kits) && forall b :: b in kits ==> fresh(b)
      ensures HerdOf(kits) == Kits(old(rabbit.State()), litter)
    {
      kits := [];
      var t := 0;
      while t < litter
        invariant 0 <= t <= litter
        invariant rabbit.State() == Parent(old(rabbit.State()), t)
        invariant Distinct(kits) && forall b :: b in kits ==> fresh(b)
        invariant HerdOf(kits) == Kits(old(rabbit.State()), t)
      {
        ghost var before := HerdOf(kits);
        assert rabbit !in kits;
        var kit := rabbit.Reproduce();
        assert HerdOf(kits) == before && HerdOf([kit]) == [kit.State()];
        HerdOfAppend(kits, [kit]);
        assert Kits(old(rabbit.State()), t + 1) == Kits(old(rabbit.State()), t) + [old(rabbit.State()).(eaten := 0)];
        kits := kits + [kit];
        t := t + 1;
      }
    }

    /** `grow`: the field becomes `np.maximum(field, growloc)` for the 0/1
        regrowth mask. */
    method Grow(mask: Grid)
      requires Valid() && IsBinary(mask, ARRSIZE)
      modifies this
      ensures Valid() && rabbits == old(rabbits) && Herd() == old(Herd()) && fresh(field)
      ensures Grass() == MaxMerge(old(Grass()), mask, ARRSIZE)
    {
      field := Maximum(field, mask);
    }

    /** After `reproduce` and `survive`, only rabbits from before breeding
        that had no kits are left: kits and parents have eaten nothing. */
    lemma CullAfterBreeding(start: seq<Rabbit>, bred: seq<Rabbit>, kept: seq<Rabbit>, h: seq<Bunny>, litters: seq<nat>)
      requires |h| == |start| == |litters| && |start| <= |bred| && bred[..|start|] == start
      requires HerdOf(bred) == Breed(h, litters)
      requires forall r :: r in kept ==> r in bred && r.eaten > 0
      ensures forall r :: r in kept ==> r in start && r.eaten > 0
      ensures forall k :: 0 <= k < |start| && start[k] in kept ==> litters[k] == 0
    {
      LittersShape(h, litters);
      forall r | r in kept
        ensures r in start
      {
        var k :| 0 <= k < |bred| && bred[k] == r;
        assert HerdOf(bred)[k] == r.State();
        assert k < |start|;
        assert bred[k] == start[k];
      }
      forall k | 0 <= k < |start| && start[k] in kept
        ensures litters[k] == 0
      {
        assert bred[k] == start[k];
        assert HerdOf(bred)[k] == Parent(h[k], litters[k]);
      }
    }

    /** `generation`: move, eat, grow, reproduce, survive. Afterwards every
        rabbit is one from before the tick that ate and had no kits. */
    method Generation(steps: seq<(int, int)>, mask: Grid, litters: seq<nat>)
      requires Valid() && |steps| == |rabbits| && AreSteps(steps) && IsBinary(mask, ARRSIZE)
      requires |litters| == |rabbits| && forall k :: 0 <= k < |litters| ==> litters[k] <= OFFSPRING
      modifies this, field, rabbits
      ensures Valid()
      ensures Grass() == Tick(old(Grass()), old(Herd()), ARRSIZE, steps, mask, litters).0
      ensures Herd() == Tick(old(Grass()), old(Herd()), ARRSIZE, steps, mask, litters).1
      ensures forall r :: r in rabbits ==> r in old(rabbits) && r.eaten > 0
      ensures forall k :: 0 <= k < |old(rabbits)| && old(rabbits)[k] in rabbits ==> litters[k] == 0
    {
      ghost var start, g0, h0 := rabbits, Grass(), Herd();
      Move(steps);
      ghost var h1 := Herd();
      assert Grass() == g0;
      Eat();
      ghost var g2, h2 := Grass(), Herd();
      assert (g2, h2) == Graze(g0, h1, ARRSIZE);
      Grow(mask);
      ghost var g3 := Grass();
      assert g3 == MaxMerge(g2, mask, ARRSIZE);
      assert Herd() == h2 && rabbits == start;
      Reproduce(litters);
      ghost var bred, bredHerd := rabbits, Herd();
      assert bred[..|start|] == start;
      Survive();
      assert HerdOf(bred) == bredHerd;
      assert Herd() == Fed(Breed(h2, litters)) && Grass() == g3;
      assert Tick(g0, h0, ARRSIZE, steps, mask, litters) == (g3, Fed(Breed(h2, litters)));
      CullAfterBreeding(start, bred, rabbits, h2, litters);
    }
  }
}
