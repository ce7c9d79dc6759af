/** The rules of the predator-prey engine of
    sample_code/alife_working_example.py, stated on values. Animals of two
    species share one list; a tick is move, eat, survive, reproduce, grow.
    Rabbits eat grass, foxes eat every rabbit on their cell, hunger rises
    for animals that have eaten nothing since they last bred, and an
    animal breeds when it has eaten enough. The imperative model in
    WorkingExample is proved to compute exactly these functions. */
module EcosystemRules {
  import opened Meadow
  import opened Lists

  /** A species name that is neither "rabbit" nor "fox". */
  type OtherName = s: string | s != "rabbit" && s != "fox" witness "hare"

  /** The `species` string: "rabbit", "fox", or any other name, so that
      each name has exactly one representation. */
  datatype Species = Rabbit | Fox | Other(name: OtherName)

  /** One animal: its species, cell, meals since it last bred, hunger,
      whether it is alive, and the per-species constants it was made with. */
  datatype Creature = Creature(
    species: Species, x: int, y: int, eaten: int, hunger: int, alive: bool,
    maxOffspring: int, starvationLevel: int, reproductionLevel: int)

  ghost predicate OnField(h: seq<Creature>, n: int) {
    forall k :: 0 <= k < |h| ==> 0 <= h[k].x < n && 0 <= h[k].y < n
  }

  /** Everything about an animal that eating cannot change. */
  function Fixed(c: Creature): Creature {
    c.(eaten := 0, hunger := 0, alive := true)
  }

  // ---------------------------------------------------------------------
  // move

  /** `Animal.move`: one step on the torus; nothing else changes (unlike
      the rabbit-only engines, the meal counter is kept). */
  function Step(c: Creature, dx: int, dy: int, n: int): Creature
    requires n > 0
  {
    c.(x := Wrap(c.x, dx, n), y := Wrap(c.y, dy, n))
  }

  /** A step from a cell lands on a neighbouring cell, across the edge if
      need be, and keeps everything but the position. */
  lemma StepLandsNextDoor(c: Creature, dx: int, dy: int, n: int)
    requires n > 0 && 0 <= c.x < n && 0 <= c.y < n && IsStep(dx) && IsStep(dy)
    ensures Step(c, dx, dy, n).x == if c.x + dx < 0 then n - 1 else if c.x + dx == n then 0 else c.x + dx
    ensures Step(c, dx, dy, n).y == if c.y + dy < 0 then n - 1 else if c.y + dy == n then 0 else c.y + dy
    ensures Step(c, dx, dy, n).(x := c.x, y := c.y) == c
  {
    WrapStep(c.x, dx, n);
    WrapStep(c.y, dy, n);
  }

  /** `Field.move`: the live animals step with their own draws; the dead
      stay where they are. */
  function Roam(h: seq<Creature>, steps: seq<(int, int)>, n: int): (r: seq<Creature>)
    requires n > 0 && |steps| == |h|
    ensures |r| == |h|
    ensures OnField(h, n) ==> OnField(r, n)
  {
    seq(|h|, k requires 0 <= k < |h| => if h[k].alive then Step(h[k], steps[k].0, steps[k].1, n) else h[k])
  }

  /** Moving keeps the herd on the field and changes only the positions of
      the live animals. */
  lemma RoamOnField(h: seq<Creature>, steps: seq<(int, int)>, n: int)
    requires n > 0 && |steps| == |h| && OnField(h, n)
    ensures OnField(Roam(h, steps, n), n)
    ensures forall k :: 0 <= k < |h| ==> Roam(h, steps, n)[k].(x := h[k].x, y := h[k].y) == h[k]
    ensures forall k :: 0 <= k < |h| && !h[k].alive ==> Roam(h, steps, n)[k] == h[k]
  {
  }

  // ---------------------------------------------------------------------
  // eat

  /** `Animal.eat`: a positive amount is added to the meals and clears the
      hunger; any other amount changes nothing. */
  function Feed(c: Creature, amount: int): Creature {
    if amount > 0 then c.(eaten := c.eaten + amount, hunger := 0) else c
  }

  predicate IsPrey(c: Creature) {
    c.alive && c.species == Rabbit
  }

  predicate IsHunter(c: Creature) {
    c.alive && c.species == Fox
  }

  /** `rabbit_locations`: for each cell holding a live rabbit, the list
      positions of the live rabbits there, in list order. */
  function Index(h: seq<Creature>): (m: map<(int, int), seq<nat>>)
    ensures forall pos :: pos in m ==> forall t :: 0 <= t < |m[pos]| ==> m[pos][t] < |h|
  {
    if h == [] then map[]
    else
      var m := Index(h[..|h| - 1]);
      var c := h[|h| - 1];
      if IsPrey(c) then
        var pos := (c.x, c.y);
        m[pos := (if pos in m then m[pos] else []) + [|h| - 1]]
      else m
  }

  /** Every live rabbit is listed under its own cell. */
  lemma {:induction false} IndexHasPrey(h: seq<Creature>)
    ensures forall k :: 0 <= k < |h| && IsPrey(h[k]) ==> (h[k].x, h[k].y) in Index(h) && k in Index(h)[(h[k].x, h[k].y)]
  {
    if h != [] {
      var m := |h| - 1;
      IndexHasPrey(h[..m]);
      forall k | 0 <= k < |h| && IsPrey(h[k])
        ensures (h[k].x, h[k].y) in Index(h) && k in Index(h)[(h[k].x, h[k].y)]
      {
        if k < m {
          assert h[..m][k] == h[k];
        }
      }
    }
  }

  /** Only live rabbits are listed, each under its own cell. */
  lemma {:induction false} IndexOnlyPrey(h: seq<Creature>)
    ensures forall pos, k :: pos in Index(h) && k in Index(h)[pos] ==> 0 <= k < |h| && IsPrey(h[k]) && (h[k].x, h[k].y) == pos
  {
    if h == [] {
      assert Index(h) == map[];
    } else {
      var m := |h| - 1;
      var before := Index(h[..m]);
      IndexOnlyPrey(h[..m]);
      forall pos, k | pos in Index(h) && k in Index(h)[pos]
        ensures 0 <= k < |h| && IsPrey(h[k]) && (h[k].x, h[k].y) == pos
      {
        if IsPrey(h[m]) && pos == (h[m].x, h[m].y) {
          var old_list := if pos in before then before[pos] else [];
          assert Index(h)[pos] == old_list + [m];
          if k != m {
            assert k in old_list;
            assert h[..m][k] == h[k];
          }
        } else {
          assert pos in before && Index(h)[pos] == before[pos];
          assert h[..m][k] == h[k];
        }
      }
    }
  }

  /** One entry of the index: a live rabbit on the cell it is listed under. */
  lemma IndexedIsPrey(h: seq<Creature>, pos: (int, int), k: nat)
    requires pos in Index(h) && k in Index(h)[pos]
    ensures k < |h| && IsPrey(h[k]) && (h[k].x, h[k].y) == pos
  {
    IndexOnlyPrey(h);
  }

  /** One live rabbit: it is listed under its own cell. */
  lemma PreyIsIndexed(h: seq<Creature>, k: nat)
    requires k < |h| && IsPrey(h[k])
    ensures (h[k].x, h[k].y) in Index(h) && k in Index(h)[(h[k].x, h[k].y)]
  {
    IndexHasPrey(h);
  }

  /** The number of rabbits a fox on cell pos is credited with. */
  function Catch(index: map<(int, int), seq<nat>>, pos: (int, int)): nat {
    if pos in index then |index[pos]| else 0
  }

  /** The number of live rabbits of h standing on cell pos. */
  function PreyAt(h: seq<Creature>, pos: (int, int)): nat {
    if h == [] then 0
    else PreyAt(h[..|h| - 1], pos) + (if IsPrey(h[|h| - 1]) && (h[|h| - 1].x, h[|h| - 1].y) == pos then 1 else 0)
  }

  /** A cell's list in the index holds one entry per live rabbit on the
      cell: its length is the number of those rabbits. */
  lemma {:induction false} IndexCounts(h: seq<Creature>, pos: (int, int))
    ensures Catch(Index(h), pos) == PreyAt(h, pos)
  {
    if h != [] {
      IndexCounts(h[..|h| - 1], pos);
    }
  }

  /** A cell's list in the index is in list order, without repeats. */
  lemma {:induction false} IndexInOrder(h: seq<Creature>, pos: (int, int))
    requires pos in Index(h)
    ensures forall s, t :: 0 <= s < t < |Index(h)[pos]| ==> Index(h)[pos][s] < Index(h)[pos][t]
  {
    var m := |h| - 1;
    var before := Index(h[..m]);
    if pos in before {
      IndexInOrder(h[..m], pos);
    }
    if IsPrey(h[m]) && pos == (h[m].x, h[m].y) {
      var list := if pos in before then before[pos] else [];
      assert Index(h)[pos] == list + [m];
      assert forall t :: 0 <= t < |list| ==> list[t] < m;
    } else {
      assert Index(h)[pos] == before[pos];
    }
  }

  /** `for rabbit in rabbits_here: rabbit.alive = False` on list positions. */
  function Kill(h: seq<Creature>, prey: seq<nat>): (r: seq<Creature>)
    ensures |r| == |h|
  {
    if prey == [] then h
    else
      var r := Kill(h, prey[..|prey| - 1]);
      var k := prey[|prey| - 1];
      if k < |r| then r[k := r[k].(alive := false)] else r
  }

  /** Exactly the listed animals are killed, and nothing else about them changes. */
  lemma {:induction false} KillKills(h: seq<Creature>, prey: seq<nat>, k: nat)
    requires k < |h|
    ensures Kill(h, prey)[k] == if k in prey then h[k].(alive := false) else h[k]
  {
    if prey != [] {
      var front := prey[..|prey| - 1];
      KillKills(h, front, k);
      assert prey == front + [prey[|prey| - 1]];
    }
  }

  /** The turn of animal i in the feeding loop of `Field.eat`: a dead
      animal is skipped; a rabbit eats its cell and bares it if there was
      grass; a fox kills every rabbit the index lists at its cell and eats
      them all. */
  function FeedOne(g: Grid, h: seq<Creature>, index: map<(int, int), seq<nat>>, n: int, i: nat): (Grid, seq<Creature>)
    requires IsGrid(g, n) && i < |h| && 0 <= h[i].x < n && 0 <= h[i].y < n
  {
    var c := h[i];
    if !c.alive then (g, h)
    else if c.species == Rabbit then
      var amount := g[c.x][c.y];
      (if amount > 0 then Cleared(g, c.x, c.y) else g, h[i := Feed(c, amount)])
    else if c.species == Fox && (c.x, c.y) in index then
      var prey := index[(c.x, c.y)];
      var killed := Kill(h, prey);
      (g, killed[i := Feed(killed[i], |prey|)])
    else (g, h)
  }

  /** The state after the first i animals of h0 have had their turn, with
      the index built from h0 before anyone ate. */
  function FeedPrefix(g: Grid, h0: seq<Creature>, n: int, i: nat): (s: (Grid, seq<Creature>))
    requires IsGrid(g, n) && OnField(h0, n) && i <= |h0|
    ensures IsGrid(s.0, n) && |s.1| == |h0|
    decreases i, 1
  {
    if i == 0 then (g, h0)
    else
      var s := FeedPrefix(g, h0, n, i - 1);
      FeedKeepsBodies(g, h0, n, i - 1, i - 1);
      FeedOne(s.0, s.1, Index(h0), n, i - 1)
  }

  /** Eating changes only meals, hunger and life: every animal keeps its
      species, its cell and its constants. */
  lemma {:induction false} FeedKeepsBodies(g: Grid, h0: seq<Creature>, n: int, i: nat, k: nat)
    requires IsGrid(g, n) && OnField(h0, n) && i <= |h0| && k < |h0|
    ensures Fixed(FeedPrefix(g, h0, n, i).1[k]) == Fixed(h0[k])
    decreases i, 2
  {
    if i > 0 {
      var s := FeedPrefix(g, h0, n, i - 1);
      FeedKeepsBodies(g, h0, n, i - 1, k);
      FeedKeepsBodies(g, h0, n, i - 1, i - 1);
      FeedOneFrame(s.0, s.1, Index(h0), n, i - 1, k);
    }
  }

  /** `Field.eat`: the index is built, then every animal has its turn. */
  function Feast(g: Grid, h: seq<Creature>, n: int): (Grid, seq<Creature>)
    requires IsGrid(g, n) && OnField(h, n)
  {
    FeedPrefix(g, h, n, |h|)
  }

  lemma FeedStep(g: Grid, h0: seq<Creature>, n: int, i: nat)
    requires IsGrid(g, n) && OnField(h0, n) && i < |h0|
    ensures Fixed(FeedPrefix(g, h0, n, i).1[i]) == Fixed(h0[i])
    ensures FeedPrefix(g, h0, n, i + 1) == FeedOne(FeedPrefix(g, h0, n, i).0, FeedPrefix(g, h0, n, i).1, Index(h0), n, i)
  {
    FeedKeepsBodies(g, h0, n, i, i);
  }

  /** What one turn can change for animal k: only the animal whose turn it
      is eats; any other animal can only die, and only when it is listed
      at the cell of the fox whose turn it is. */
  lemma FeedOneFrame(g: Grid, h: seq<Creature>, index: map<(int, int), seq<nat>>, n: int, i: nat, k: nat)
    requires IsGrid(g, n) && i < |h| && 0 <= h[i].x < n && 0 <= h[i].y < n && k < |h|
    ensures |FeedOne(g, h, index, n, i).1| == |h|
    ensures Fixed(FeedOne(g, h, index, n, i).1[k]) == Fixed(h[k])
    ensures k != i ==> FeedOne(g, h, index, n, i).1[k].eaten == h[k].eaten && FeedOne(g, h, index, n, i).1[k].hunger == h[k].hunger
    ensures FeedOne(g, h, index, n, i).1[k].alive != h[k].alive ==>
      && !FeedOne(g, h, index, n, i).1[k].alive && h[i].alive && h[i].species == Fox
      && (h[i].x, h[i].y) in index && k in index[(h[i].x, h[i].y)]
  {
    var c := h[i];
    if c.alive && c.species == Fox && (c.x, c.y) in index {
      KillKills(h, index[(c.x, c.y)], k);
    }
  }

  /** One turn only bares cells. */
  lemma FeedOneGrazes(g: Grid, h: seq<Creature>, index: map<(int, int), seq<nat>>, n: int, i: nat)
    requires IsGrid(g, n) && i < |h| && 0 <= h[i].x < n && 0 <= h[i].y < n
    ensures Grazed(g, FeedOne(g, h, index, n, i).0, n)
  {
  }

  /** What turn m of the feeding loop can change for animal k: only the
      animal whose turn it is eats, and another animal can only die, when
      it is a live rabbit on the cell of the fox whose turn it is. */
  lemma TurnFrame(g: Grid, h0: seq<Creature>, n: int, m: nat, k: nat)
    requires IsGrid(g, n) && OnField(h0, n) && m < |h0| && k < |h0|
    ensures k != m ==>
      FeedPrefix(g, h0, n, m + 1).1[k].eaten == FeedPrefix(g, h0, n, m).1[k].eaten &&
      FeedPrefix(g, h0, n, m + 1).1[k].hunger == FeedPrefix(g, h0, n, m).1[k].hunger
    ensures FeedPrefix(g, h0, n, m + 1).1[k].alive != FeedPrefix(g, h0, n, m).1[k].alive ==>
      && !FeedPrefix(g, h0, n, m + 1).1[k].alive
      && FeedPrefix(g, h0, n, m).1[m].alive && h0[m].species == Fox
      && IsPrey(h0[k]) && h0[k].x == h0[m].x && h0[k].y == h0[m].y
  {
    var s := FeedPrefix(g, h0, n, m);
    FeedKeepsBodies(g, h0, n, m, m);
    FeedOneFrame(s.0, s.1, Index(h0), n, m, k);
    if FeedPrefix(g, h0, n, m + 1).1[k].alive != s.1[k].alive {
      IndexedIsPrey(h0, (s.1[m].x, s.1[m].y), k);
    }
  }

  /** Before its turn an animal has the meals and hunger it started with. */
  lemma {:induction false} FeedUntouched(g: Grid, h0: seq<Creature>, n: int, i: nat, k: nat)
    requires IsGrid(g, n) && OnField(h0, n) && i <= k < |h0|
    ensures FeedPrefix(g, h0, n, i).1[k].eaten == h0[k].eaten && FeedPrefix(g, h0, n, i).1[k].hunger == h0[k].hunger
  {
    if i > 0 {
      FeedUntouched(g, h0, n, i - 1, k);
      TurnFrame(g, h0, n, i - 1, k);
    }
  }

  /** Only rabbits die while the animals eat. */
  lemma {:induction false} OnlyRabbitsDie(g: Grid, h0: seq<Creature>, n: int, i: nat, k: nat)
    requires IsGrid(g, n) && OnField(h0, n) && i <= |h0| && k < |h0| && h0[k].species != Rabbit
    ensures FeedPrefix(g, h0, n, i).1[k].alive == h0[k].alive
  {
    if i > 0 {
      OnlyRabbitsDie(g, h0, n, i - 1, k);
      TurnFrame(g, h0, n, i - 1, k);
    }
  }

  /** After its turn an animal's meals and hunger are settled. */
  lemma {:induction false} FeedSettled(g: Grid, h0: seq<Creature>, n: int, a: nat, m: nat, k: nat)
    requires IsGrid(g, n) && OnField(h0, n) && k < a <= m <= |h0|
    ensures FeedPrefix(g, h0, n, m).1[k].eaten == FeedPrefix(g, h0, n, a).1[k].eaten
    ensures FeedPrefix(g, h0, n, m).1[k].hunger == FeedPrefix(g, h0, n, a).1[k].hunger
    decreases m
  {
    if a < m {
      FeedSettled(g, h0, n, a, m - 1, k);
      TurnFrame(g, h0, n, m - 1, k);
    }
  }

  /** Nobody comes back to life while the animals eat. */
  lemma {:induction false} StaysDead(g: Grid, h0: seq<Creature>, n: int, a: nat, m: nat, k: nat)
    requires IsGrid(g, n) && OnField(h0, n) && a <= m <= |h0| && k < |h0|
    requires !FeedPrefix(g, h0, n, a).1[k].alive
    ensures !FeedPrefix(g, h0, n, m).1[k].alive
    decreases m
  {
    if a < m {
      StaysDead(g, h0, n, a, m - 1, k);
      TurnFrame(g, h0, n, m - 1, k);
    }
  }

  /** An animal that is dead after its turn stays as it is. */
  lemma DeadSettled(g: Grid, h0: seq<Creature>, n: int, a: nat, k: nat)
    requires IsGrid(g, n) && OnField(h0, n) && k < a <= |h0| && !FeedPrefix(g, h0, n, a).1[k].alive
    ensures Feast(g, h0, n).1[k] == FeedPrefix(g, h0, n, a).1[k]
  {
    FeedSettled(g, h0, n, a, |h0|, k);
    StaysDead(g, h0, n, a, |h0|, k);
    FeedKeepsBodies(g, h0, n, a, k);
    FeedKeepsBodies(g, h0, n, |h0|, k);
  }

  /** A fox is settled once its turn is over. */
  lemma FoxSettled(g: Grid, h0: seq<Creature>, n: int, a: nat, k: nat)
    requires IsGrid(g, n) && OnField(h0, n) && k < a <= |h0| && h0[k].species != Rabbit
    ensures Feast(g, h0, n).1[k] == FeedPrefix(g, h0, n, a).1[k]
  {
    FeedSettled(g, h0, n, a, |h0|, k);
    OnlyRabbitsDie(g, h0, n, |h0|, k);
    OnlyRabbitsDie(g, h0, n, a, k);
    FeedKeepsBodies(g, h0, n, a, k);
    FeedKeepsBodies(g, h0, n, |h0|, k);
  }

  /** While the animals eat, a cell either keeps its grass or is bared. */
  lemma {:induction false} CellOnlyBared(g: Grid, h0: seq<Creature>, n: int, a: nat, m: nat, p: int, q: int)
    requires IsGrid(g, n) && OnField(h0, n) && a <= m <= |h0| && 0 <= p < n && 0 <= q < n
    ensures FeedPrefix(g, h0, n, m).0[p][q] == FeedPrefix(g, h0, n, a).0[p][q] || FeedPrefix(g, h0, n, m).0[p][q] == 0
    decreases m
  {
    if a < m {
      CellOnlyBared(g, h0, n, a, m - 1, p, q);
      var s := FeedPrefix(g, h0, n, m - 1);
      FeedKeepsBodies(g, h0, n, m - 1, m - 1);
      FeedOneGrazes(s.0, s.1, Index(h0), n, m - 1);
    }
  }

  /** Eating leaves a 0/1 field a 0/1 field, and grass only disappears. */
  lemma FeastStaysBinary(g: Grid, h: seq<Creature>, n: int)
    requires IsBinary(g, n) && OnField(h, n)
    ensures IsBinary(Feast(g, h, n).0, n) && Grazed(g, Feast(g, h, n).0, n)
  {
    forall p, q | 0 <= p < n && 0 <= q < n
      ensures Feast(g, h, n).0[p][q] == g[p][q] || Feast(g, h, n).0[p][q] == 0
    {
      CellOnlyBared(g, h, n, 0, |h|, p, q);
    }
  }

  /** Right after a live fox's turn, every rabbit indexed at its cell is dead. */
  lemma FoxStrikes(g: Grid, h0: seq<Creature>, n: int, i: nat, j: nat)
    requires IsGrid(g, n) && OnField(h0, n) && i < |h0| && IsHunter(h0[i])
    requires (h0[i].x, h0[i].y) in Index(h0) && j in Index(h0)[(h0[i].x, h0[i].y)]
    ensures j < |h0| && !FeedPrefix(g, h0, n, i + 1).1[j].alive
  {
    OnlyRabbitsDie(g, h0, n, i, i);
    IndexedIsPrey(h0, (h0[i].x, h0[i].y), j);
    var s := FeedPrefix(g, h0, n, i);
    FeedStep(g, h0, n, i);
    assert s.1[i].species == Fox && s.1[i].alive;
    KillKills(s.1, Index(h0)[(h0[i].x, h0[i].y)], j);
  }

  /** A live fox kills every rabbit the index lists at its cell: none of
      them is alive at any point after the fox's turn. */
  lemma FoxKills(g: Grid, h0: seq<Creature>, n: int, i: nat, j: nat, m: nat)
    requires IsGrid(g, n) && OnField(h0, n) && i < m <= |h0| && IsHunter(h0[i])
    requires (h0[i].x, h0[i].y) in Index(h0) && j in Index(h0)[(h0[i].x, h0[i].y)]
    ensures j < |h0| && !FeedPrefix(g, h0, n, m).1[j].alive
  {
    FoxStrikes(g, h0, n, i, j);
    StaysDead(g, h0, n, i + 1, m, j);
  }

  /** A live fox ends the meal fed with the number of rabbits the index
      lists at its cell, which is the number of live rabbits on the cell
      before anyone ate, and is otherwise unchanged. The index is built
      before anyone eats, so two foxes on one cell are credited the same
      rabbits. */
  lemma FoxCredit(g: Grid, h0: seq<Creature>, n: int, i: nat)
    requires IsGrid(g, n) && OnField(h0, n) && i < |h0| && IsHunter(h0[i])
    ensures Feast(g, h0, n).1[i] == Feed(h0[i], Catch(Index(h0), (h0[i].x, h0[i].y)))
    ensures Feast(g, h0, n).1[i] == Feed(h0[i], PreyAt(h0, (h0[i].x, h0[i].y)))
  {
    IndexCounts(h0, (h0[i].x, h0[i].y));
    FoxTurn(g, h0, n, i);
    FoxSettled(g, h0, n, i + 1, i);
  }

  /** The fox's own turn. */
  lemma FoxTurn(g: Grid, h0: seq<Creature>, n: int, i: nat)
    requires IsGrid(g, n) && OnField(h0, n) && i < |h0| && IsHunter(h0[i])
    ensures FeedPrefix(g, h0, n, i + 1).1[i] == Feed(h0[i], Catch(Index(h0), (h0[i].x, h0[i].y)))
  {
    var s := FeedPrefix(g, h0, n, i);
    FeedUntouched(g, h0, n, i, i);
    OnlyRabbitsDie(g, h0, n, i, i);
    FeedKeepsBodies(g, h0, n, i, i);
    assert s.1[i] == h0[i];
    var pos := (h0[i].x, h0[i].y);
    if pos in Index(h0) {
      var prey := Index(h0)[pos];
      if i in prey {
        IndexedIsPrey(h0, pos, i);
      }
      KillKills(s.1, prey, i);
    }
  }

  /** Some live fox among the first k animals of h stands on cell (a, c). */
  predicate Hunted(h: seq<Creature>, k: nat, a: int, c: int)
    requires k <= |h|
  {
    k > 0 && (Hunted(h, k - 1, a, c) || (IsHunter(h[k - 1]) && h[k - 1].x == a && h[k - 1].y == c))
  }

  lemma {:induction false} HuntedByFox(h: seq<Creature>, k: nat, a: int, c: int)
    requires k <= |h| && Hunted(h, k, a, c)
    ensures exists j :: 0 <= j < k && IsHunter(h[j]) && h[j].x == a && h[j].y == c
  {
    if !(IsHunter(h[k - 1]) && h[k - 1].x == a && h[k - 1].y == c) {
      HuntedByFox(h, k - 1, a, c);
    }
  }

  /** A live rabbit that no live fox among the first m animals shares a
      cell with is still alive after their turns. */
  lemma {:induction false} RabbitSpared(g: Grid, h0: seq<Creature>, n: int, m: nat, i: nat)
    requires IsGrid(g, n) && OnField(h0, n) && m <= |h0| && i < |h0| && IsPrey(h0[i])
    requires !Hunted(h0, m, h0[i].x, h0[i].y)
    ensures FeedPrefix(g, h0, n, m).1[i].alive
  {
    if m > 0 {
      RabbitSpared(g, h0, n, m - 1, i);
      TurnFrame(g, h0, n, m - 1, i);
      if !FeedPrefix(g, h0, n, m).1[i].alive {
        OnlyRabbitsDie(g, h0, n, m - 1, m - 1);
      }
    }
  }

  /** A live rabbit survives the meal exactly when no live fox shares its cell. */
  lemma RabbitSurvivesIffNoFox(g: Grid, h0: seq<Creature>, n: int, i: nat)
    requires IsGrid(g, n) && OnField(h0, n) && i < |h0| && IsPrey(h0[i])
    ensures Feast(g, h0, n).1[i].alive <==> !Hunted(h0, |h0|, h0[i].x, h0[i].y)
  {
    if Hunted(h0, |h0|, h0[i].x, h0[i].y) {
      HuntedByFox(h0, |h0|, h0[i].x, h0[i].y);
      var j :| 0 <= j < |h0| && IsHunter(h0[j]) && h0[j].x == h0[i].x && h0[j].y == h0[i].y;
      PreyIsIndexed(h0, i);
      FoxKills(g, h0, n, j, i, |h0|);
    } else {
      RabbitSpared(g, h0, n, |h0|, i);
    }
  }

  /** A rabbit that a fox earlier in the list has already killed is
      skipped: it ends the meal dead and with the meals and hunger it had. */
  lemma KilledRabbitSkipped(g: Grid, h0: seq<Creature>, n: int, i: nat)
    requires IsGrid(g, n) && OnField(h0, n) && i < |h0| && IsPrey(h0[i])
    requires Hunted(h0, i, h0[i].x, h0[i].y)
    ensures Feast(g, h0, n).1[i] == h0[i].(alive := false)
  {
    HuntedByFox(h0, i, h0[i].x, h0[i].y);
    var j :| 0 <= j < i && IsHunter(h0[j]) && h0[j].x == h0[i].x && h0[j].y == h0[i].y;
    PreyIsIndexed(h0, i);
    FoxKills(g, h0, n, j, i, i);
    FeedUntouched(g, h0, n, i, i);
    FeedKeepsBodies(g, h0, n, i, i);
    assert FeedPrefix(g, h0, n, i).1[i] == h0[i].(alive := false);
    SkippedTurn(g, h0, n, i);
    DeadSettled(g, h0, n, i + 1, i);
  }

  /** A dead animal's turn changes nothing. */
  lemma SkippedTurn(g: Grid, h0: seq<Creature>, n: int, i: nat)
    requires IsGrid(g, n) && OnField(h0, n) && i < |h0| && !FeedPrefix(g, h0, n, i).1[i].alive
    ensures FeedPrefix(g, h0, n, i + 1) == FeedPrefix(g, h0, n, i)
  {
    FeedStep(g, h0, n, i);
  }

  /** A live rabbit that no earlier fox has killed eats the grass its cell
      holds when its turn comes (one unit or none), which clears its hunger
      if there was any, and its cell is bare once all have eaten. */
  lemma RabbitGrazes(g: Grid, h0: seq<Creature>, n: int, i: nat)
    requires IsBinary(g, n) && OnField(h0, n) && i < |h0| && IsPrey(h0[i])
    requires !Hunted(h0, i, h0[i].x, h0[i].y)
    ensures var grass := FeedPrefix(g, h0, n, i).0[h0[i].x][h0[i].y];
      && (grass == 0 || grass == 1)
      && Feast(g, h0, n).1[i].eaten == h0[i].eaten + grass
      && Feast(g, h0, n).1[i].hunger == (if grass > 0 then 0 else h0[i].hunger)
      && Feast(g, h0, n).0[h0[i].x][h0[i].y] == 0
  {
    var x, y := h0[i].x, h0[i].y;
    RabbitSpared(g, h0, n, i, i);
    FeedUntouched(g, h0, n, i, i);
    CellOnlyBared(g, h0, n, 0, i, x, y);
    FeedStep(g, h0, n, i);
    FeedSettled(g, h0, n, i + 1, |h0|, i);
    CellOnlyBared(g, h0, n, i + 1, |h0|, x, y);
  }

  // ---------------------------------------------------------------------
  // survive

  /** One animal in `Field.survive`: a dead animal is left alone; a live one
      gets one hungrier if it has eaten nothing, and dies if its hunger has
      reached its starvation level. */
  function Endure(c: Creature): Creature {
    if !c.alive then c
    else
      var d := if c.eaten == 0 then c.(hunger := c.hunger + 1) else c;
      if d.hunger >= d.starvationLevel then d.(alive := false) else d
  }

  /** `surviving_animals`: the animals still alive after `Endure`, in order. */
  function Survivors(h: seq<Creature>): seq<Creature> {
    if h == [] then []
    else Survivors(h[..|h| - 1]) + (if Endure(h[|h| - 1]).alive then [Endure(h[|h| - 1])] else [])
  }

  /** Every animal of h after `Endure`, the survivors among them. */
  function Endured(h: seq<Creature>): (r: seq<Creature>)
    ensures |r| == |h|
  {
    seq(|h|, k requires 0 <= k < |h| => Endure(h[k]))
  }

  /** The hunger a live animal has after `survive`: one more if it ate nothing. */
  function Hungrier(c: Creature): Creature {
    c.(hunger := c.hunger + (if c.eaten == 0 then 1 else 0))
  }

  /** One more animal has its turn in `survive`. */
  lemma SurvivorsStep(h: seq<Creature>, i: nat)
    requires i < |h|
    ensures Survivors(h[..i + 1]) == Survivors(h[..i]) + (if Endure(h[i]).alive then [Endure(h[i])] else [])
  {
    assert h[..i + 1][..i] == h[..i];
  }

  /** `survive` keeps the animals in their original order. */
  lemma {:induction false} SurvivorsInOrder(h: seq<Creature>)
    ensures IsSubsequence(Survivors(h), Endured(h))
  {
    if h != [] {
      var m := |h| - 1;
      var front, last := h[..m], Endure(h[m]);
      SurvivorsInOrder(front);
      assert Endured(h) == Endured(front) + [last];
      if last.alive {
        assert Survivors(h) == Survivors(front) + [last];
        SubsequenceKeep(Survivors(front), Endured(front), last);
      } else {
        assert Survivors(h) == Survivors(front);
        SubsequenceSkip(Survivors(front), Endured(front), last);
      }
    }
  }

  /** Every animal `survive` keeps was alive, is alive, and is below its
      starvation level, with its hunger raised by one if it had eaten
      nothing and otherwise unchanged. */
  lemma {:induction false} SurvivorsSound(h: seq<Creature>)
    ensures forall c :: c in Survivors(h) ==>
      c.alive && c.hunger < c.starvationLevel && exists k :: 0 <= k < |h| && h[k].alive && c == Hungrier(h[k])
  {
    if h != [] {
      var m := |h| - 1;
      SurvivorsSound(h[..m]);
      forall c | c in Survivors(h)
        ensures c.alive && c.hunger < c.starvationLevel && exists k :: 0 <= k < |h| && h[k].alive && c == Hungrier(h[k])
      {
        if c in Survivors(h[..m]) {
          var k :| 0 <= k < m && h[..m][k].alive && c == Hungrier(h[..m][k]);
          assert h[k] == h[..m][k];
        } else {
          assert h[m].alive && c == Hungrier(h[m]);
        }
      }
    }
  }

  /** Every live animal whose raised hunger stays below its starvation level
      is kept. */
  lemma {:induction false} SurvivorsComplete(h: seq<Creature>, k: nat)
    requires k < |h| && h[k].alive && Hungrier(h[k]).hunger < h[k].starvationLevel
    ensures Hungrier(h[k]) in Survivors(h)
  {
    var m := |h| - 1;
    if k < m {
      assert h[..m][k] == h[k];
      SurvivorsComplete(h[..m], k);
    } else {
      assert Endure(h[m]) == Hungrier(h[m]);
    }
  }

  // ---------------------------------------------------------------------
  // reproduce

  /** `for _ in range(litter): offspring = animal.reproduce()`: each call
      that finds the meals at the reproduction level resets them to 0 and
      appends a copy of the animal made after the reset. */
  function Brood(c: Creature, litter: nat): (Creature, seq<Creature>)
    decreases litter
  {
    if litter == 0 then (c, [])
    else
      var (p, kits) := Brood(c, litter - 1);
      if p.eaten >= p.reproductionLevel then (p.(eaten := 0), kits + [p.(eaten := 0)]) else (p, kits)
  }

  /** n copies of one animal. */
  function Copies(c: Creature, n: nat): (r: seq<Creature>)
    ensures |r| == n && forall k :: 0 <= k < n ==> r[k] == c
  {
    seq(n, _ => c)
  }

  /** What the litter loop comes to: an animal that has not eaten enough has
      no kits and is unchanged; otherwise its meals are reset and it has one
      kit, or one per draw when its reproduction level is 0 or below, so
      that the reset meals still reach it. Every kit is a copy of the reset
      parent, and with a level of at least 1 there is at most one kit. */
  lemma {:induction false} BroodClosedForm(c: Creature, litter: nat)
    ensures Brood(c, litter) ==
      if litter > 0 && c.eaten >= c.reproductionLevel
      then (c.(eaten := 0), Copies(c.(eaten := 0), if c.reproductionLevel <= 0 then litter else 1))
      else (c, [])
    ensures c.reproductionLevel >= 1 ==> |Brood(c, litter).1| <= 1
  {
    if litter > 0 {
      BroodClosedForm(c, litter - 1);
      var reset := c.(eaten := 0);
      if c.eaten >= c.reproductionLevel {
        if litter == 1 {
          assert [] + [reset] == Copies(reset, 1);
        } else if c.reproductionLevel <= 0 {
          assert Copies(reset, litter - 1) + [reset] == Copies(reset, litter);
        }
      }
    }
  }

  /** One animal in `Field.reproduce`: only live animals draw a litter. */
  function Bred(c: Creature, litter: nat): (Creature, seq<Creature>) {
    if c.alive then Brood(c, litter) else (c, [])
  }

  /** The animals themselves after `reproduce`. */
  function Parents(h: seq<Creature>, litters: seq<nat>): (r: seq<Creature>)
    requires |litters| == |h|
    ensures |r| == |h|
  {
    seq(|h|, k requires 0 <= k < |h| => Bred(h[k], litters[k]).0)
  }

  /** `born`: the kits of all the animals of h, in birth order. */
  function Born(h: seq<Creature>, litters: seq<nat>): seq<Creature>
    requires |litters| == |h|
  {
    if h == [] then []
    else Born(h[..|h| - 1], litters[..|h| - 1]) + Bred(h[|h| - 1], litters[|h| - 1]).1
  }

  /** `Field.reproduce`: the animals keep their places and the kits follow
      them at the end of the list. */
  function Breed(h: seq<Creature>, litters: seq<nat>): seq<Creature>
    requires |litters| == |h|
  {
    Parents(h, litters) + Born(h, litters)
  }

  /** The loop of `reproduce` after i animals: those have bred, the rest not yet. */
  function BredUpTo(h: seq<Creature>, litters: seq<nat>, i: nat): (r: seq<Creature>)
    requires |litters| == |h| && i <= |h|
    ensures |r| == |h| && forall k :: i <= k < |h| ==> r[k] == h[k]
  {
    if i == 0 then h else BredUpTo(h, litters, i - 1)[i - 1 := Bred(h[i - 1], litters[i - 1]).0]
  }

  /** After i animals the first i have bred and the rest are untouched; once
      every animal has had its turn the list is `Parents`. */
  lemma {:induction false} BredUpToParents(h: seq<Creature>, litters: seq<nat>, i: nat)
    requires |litters| == |h| && i <= |h|
    ensures BredUpTo(h, litters, i) == Parents(h[..i], litters[..i]) + h[i..]
  {
    if i > 0 {
      BredUpToParents(h, litters, i - 1);
      var a, b := BredUpTo(h, litters, i), Parents(h[..i], litters[..i]) + h[i..];
      forall k | 0 <= k < |h|
        ensures a[k] == b[k]
      {
        if k < i - 1 {
          assert a[k] == Parents(h[..i - 1], litters[..i - 1])[k];
        } else if k > i - 1 {
          assert a[k] == h[k];
        }
      }
    }
  }

  /** One more animal breeds: its kits follow the earlier ones. */
  lemma BornStep(h: seq<Creature>, litters: seq<nat>, i: nat)
    requires |litters| == |h| && i < |h|
    ensures Born(h[..i + 1], litters[..i + 1]) == Born(h[..i], litters[..i]) + Bred(h[i], litters[i]).1
  {
    assert h[..i + 1][..i] == h[..i] && litters[..i + 1][..i] == litters[..i];
  }

  /** A parent after `reproduce` differs from before only in its meals, and
      only if it had a kit; every kit is a live copy of its reset parent,
      with nothing eaten. */
  lemma BredShape(c: Creature, litter: nat)
    ensures Bred(c, litter).0 == c || (Bred(c, litter).0 == c.(eaten := 0) && |Bred(c, litter).1| > 0)
    ensures forall kit :: kit in Bred(c, litter).1 ==> kit == Bred(c, litter).0 && kit.eaten == 0 && c.alive
    ensures |Bred(c, litter).1| <= litter
    ensures c.reproductionLevel >= 1 ==> |Bred(c, litter).1| <= 1
  {
    BroodClosedForm(c, litter);
  }

  /** Every kit is a copy of an animal of the list that bred: alive, on the
      parent's cell, with nothing eaten. There is at most one kit per draw,
      and at most one per animal when every reproduction level is at least 1. */
  lemma {:induction false} BornShape(h: seq<Creature>, litters: seq<nat>)
    requires |litters| == |h|
    ensures forall kit :: kit in Born(h, litters) ==> exists p :: 0 <= p < |h| && kit == Parents(h, litters)[p] && kit.eaten == 0 && kit.alive
    ensures |Born(h, litters)| <= Sum(litters)
    ensures (forall k :: 0 <= k < |h| ==> h[k].reproductionLevel >= 1) ==> |Born(h, litters)| <= |h|
  {
    if h != [] {
      var m := |h| - 1;
      BornShape(h[..m], litters[..m]);
      BredShape(h[m], litters[m]);
      assert litters[..m] + [litters[m]] == litters;
      forall kit | kit in Born(h, litters)
        ensures exists p :: 0 <= p < |h| && kit == Parents(h, litters)[p] && kit.eaten == 0 && kit.alive
      {
        if kit in Born(h[..m], litters[..m]) {
          var p :| 0 <= p < m && kit == Parents(h[..m], litters[..m])[p] && kit.eaten == 0 && kit.alive;
          assert Parents(h, litters)[p] == Parents(h[..m], litters[..m])[p];
        } else {
          assert kit == Parents(h, litters)[m];
        }
      }
    }
  }

  /** Breeding puts every kit on its parent's cell, so the list stays on the field. */
  lemma BreedOnField(h: seq<Creature>, litters: seq<nat>, n: int)
    requires |litters| == |h| && OnField(h, n)
    ensures OnField(Breed(h, litters), n)
  {
    var ps := Parents(h, litters);
    forall k | 0 <= k < |h|
      ensures 0 <= ps[k].x < n && 0 <= ps[k].y < n
    {
      BredShape(h[k], litters[k]);
    }
    BornShape(h, litters);
    var r := Breed(h, litters);
    forall k | |h| <= k < |r|
      ensures 0 <= r[k].x < n && 0 <= r[k].y < n
    {
      assert r[k] in Born(h, litters);
    }
  }

  // ---------------------------------------------------------------------
  // generation

  /** `Field.generation`: move, eat, survive, reproduce, grow. The litters
      are drawn for the survivors, the only animals left to breed. */
  function Tick(g: Grid, h: seq<Creature>, n: int, steps: seq<(int, int)>, mask: Grid, litters: seq<nat>): (Grid, seq<Creature>)
    requires n > 0 && IsGrid(g, n) && IsGrid(mask, n) && OnField(h, n) && |steps| == |h|
    requires |litters| == |Survivors(Feast(g, Roam(h, steps, n), n).1)|
  {
    var (grazed, fed) := Feast(g, Roam(h, steps, n), n);
    (MaxMerge(grazed, mask, n), Breed(Survivors(fed), litters))
  }

  /** An animal on the field, alive and not starving. */
  ghost predicate Fit(c: Creature, n: int) {
    0 <= c.x < n && 0 <= c.y < n && c.alive && c.hunger < c.starvationLevel
  }

  /** Eating moves nobody. */
  lemma FeastOnField(g: Grid, h: seq<Creature>, n: int)
    requires IsGrid(g, n) && OnField(h, n)
    ensures OnField(Feast(g, h, n).1, n)
  {
    forall k | 0 <= k < |h|
      ensures 0 <= Feast(g, h, n).1[k].x < n && 0 <= Feast(g, h, n).1[k].y < n
    {
      FeedKeepsBodies(g, h, n, |h|, k);
    }
  }

  /** On the field, `survive` leaves only fit animals. */
  lemma SurvivorsFit(h: seq<Creature>, n: int)
    requires OnField(h, n)
    ensures forall c :: c in Survivors(h) ==> Fit(c, n)
  {
    SurvivorsSound(h);
  }

  /** Breeding fit animals gives fit animals: parents change only their
      meals and kits are copies of their parents. */
  lemma BreedFit(h: seq<Creature>, litters: seq<nat>, n: int)
    requires |litters| == |h| && forall c :: c in h ==> Fit(c, n)
    ensures forall c :: c in Breed(h, litters) ==> Fit(c, n)
  {
    var ps := Parents(h, litters);
    forall k | 0 <= k < |h|
      ensures Fit(ps[k], n)
    {
      BredShape(h[k], litters[k]);
      assert h[k] in h;
    }
    BornShape(h, litters);
  }

  /** A tick keeps the field a 0/1 field and leaves only fit animals on it;
      grass eaten this tick can come back only through the regrowth mask,
      which is applied after eating. */
  lemma TickKeepsField(g: Grid, h: seq<Creature>, n: int, steps: seq<(int, int)>, mask: Grid, litters: seq<nat>)
    requires n > 0 && IsBinary(g, n) && IsBinary(mask, n) && OnField(h, n) && |steps| == |h|
    requires |litters| == |Survivors(Feast(g, Roam(h, steps, n), n).1)|
    ensures IsBinary(Tick(g, h, n, steps, mask, litters).0, n)
    ensures forall a, c :: 0 <= a < n && 0 <= c < n ==>
      Tick(g, h, n, steps, mask, litters).0[a][c] == Max(Feast(g, Roam(h, steps, n), n).0[a][c], mask[a][c])
    ensures forall c :: c in Tick(g, h, n, steps, mask, litters).1 ==> Fit(c, n)
    ensures OnField(Tick(g, h, n, steps, mask, litters).1, n)
  {
    var moved := Roam(h, steps, n);
    FeastStaysBinary(g, moved, n);
    var fed := Feast(g, moved, n).1;
    FeastOnField(g, moved, n);
    SurvivorsFit(fed, n);
    BreedFit(Survivors(fed), litters, n);
    var r := Tick(g, h, n, steps, mask, litters).1;
    assert forall k :: 0 <= k < |r| ==> r[k] in r;
  }

  // ---------------------------------------------------------------------
  // census

  /** `count_species`: the live rabbits and the live foxes. */
  function Census(h: seq<Creature>): (r: (nat, nat))
    ensures r.0 + r.1 <= |h|
  {
    if h == [] then (0, 0)
    else
      var (rabbits, foxes) := Census(h[..|h| - 1]);
      var c := h[|h| - 1];
      (rabbits + (if IsPrey(c) then 1 else 0), foxes + (if IsHunter(c) then 1 else 0))
  }

  /** The census of two lists together is the sum of their censuses. */
  lemma {:induction false} CensusAppend(a: seq<Creature>, b: seq<Creature>)
    ensures Census(a + b) == (Census(a).0 + Census(b).0, Census(a).1 + Census(b).1)
    decreases |b|
  {
    if b == [] {
      assert a + b == a;
    } else {
      var front := b[..|b| - 1];
      assert (a + b)[..|a + b| - 1] == a + front;
      CensusAppend(a, front);
    }
  }

  /** Every animal is counted once when all are alive and are rabbits or foxes. */
  lemma {:induction false} CensusCountsAll(h: seq<Creature>)
    requires forall k :: 0 <= k < |h| ==> h[k].alive && !h[k].species.Other?
    ensures Census(h).0 + Census(h).1 == |h|
  {
    if h != [] {
      CensusCountsAll(h[..|h| - 1]);
    }
  }

  /** A list of live rabbits counts as that many rabbits and no foxes, and a
      list of live foxes the other way round. */
  lemma {:induction false} CensusOfOneKind(h: seq<Creature>)
    ensures (forall k :: 0 <= k < |h| ==> IsPrey(h[k])) ==> Census(h) == (|h|, 0)
    ensures (forall k :: 0 <= k < |h| ==> IsHunter(h[k])) ==> Census(h) == (0, |h|)
  {
    if h != [] {
      CensusOfOneKind(h[..|h| - 1]);
    }
  }

  /** Dead animals and other species are not counted: a list without a
      live rabbit counts no rabbits, and one without a live fox no foxes. */
  lemma {:induction false} CensusSkipsOthers(h: seq<Creature>)
    ensures (forall k :: 0 <= k < |h| ==> !IsPrey(h[k])) ==> Census(h).0 == 0
    ensures (forall k :: 0 <= k < |h| ==> !IsHunter(h[k])) ==> Census(h).1 == 0
  {
    if h != [] {
      CensusSkipsOthers(h[..|h| - 1]);
    }
  }
}
