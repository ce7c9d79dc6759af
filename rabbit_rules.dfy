/** The rules of the two rabbit-only engines (the `Field` classes of
    alife.py and sample_code/alife_C_static-Repoduction.py, which agree line
    for line), stated on values. A rabbit is its cell and what it has eaten
    since its last move; a tick is move, eat, grow, reproduce, survive. The
    imperative models in StaticReproduction and Alife are proved to compute
    exactly these functions. */
module RabbitRules {
  import opened Meadow
  import opened Lists

  datatype Bunny = Bunny(x: int, y: int, eaten: int)

  ghost predicate OnField(h: seq<Bunny>, n: int) {
    forall k :: 0 <= k < |h| ==> 0 <= h[k].x < n && 0 <= h[k].y < n
  }

  // ---------------------------------------------------------------------
  // move

  /** `move`: one step on the torus, and the meal counter starts over. */
  function Hop(b: Bunny, dx: int, dy: int, n: int): Bunny
    requires n > 0
  {
    Bunny(Wrap(b.x, dx, n), Wrap(b.y, dy, n), 0)
  }

  /** A hop from a cell lands on a neighbouring cell, across the edge if
      need be, with nothing eaten yet. */
  lemma HopLandsNextDoor(b: Bunny, dx: int, dy: int, n: int)
    requires n > 0 && 0 <= b.x < n && 0 <= b.y < n && IsStep(dx) && IsStep(dy)
    ensures Hop(b, dx, dy, n).x == if b.x + dx < 0 then n - 1 else if b.x + dx == n then 0 else b.x + dx
    ensures Hop(b, dx, dy, n).y == if b.y + dy < 0 then n - 1 else if b.y + dy == n then 0 else b.y + dy
    ensures Hop(b, dx, dy, n).eaten == 0
  {
    WrapStep(b.x, dx, n);
    WrapStep(b.y, dy, n);
  }

  /** `Field.move`: every rabbit hops with its own draws; afterwards all are
      on the field and none has eaten. */
  function HopAll(h: seq<Bunny>, steps: seq<(int, int)>, n: int): (r: seq<Bunny>)
    requires n > 0 && |steps| == |h|
    ensures |r| == |h| && OnField(r, n)
    ensures forall k :: 0 <= k < |r| ==> r[k].eaten == 0
  {
    seq(|h|, k requires 0 <= k < |h| => Hop(h[k], steps[k].0, steps[k].1, n))
  }

  // ---------------------------------------------------------------------
  // eat

  /** Some rabbit among the first k of h stands on cell (a, c). */
  predicate Visited(h: seq<Bunny>, k: nat, a: int, c: int)
    requires k <= |h|
  {
    k > 0 && (Visited(h, k - 1, a, c) || (h[k - 1].x == a && h[k - 1].y == c))
  }

  /** Rabbit j is the first in list order on its cell. */
  predicate FirstOnCell(h: seq<Bunny>, j: nat)
    requires j < |h|
  {
    !Visited(h, j, h[j].x, h[j].y)
  }

  lemma {:induction false} VisitedByEarlier(h: seq<Bunny>, k: nat, j: nat)
    requires j < k <= |h|
    ensures Visited(h, k, h[j].x, h[j].y)
  {
    if j < k - 1 {
      VisitedByEarlier(h, k - 1, j);
    }
  }

  /** The state after the first k rabbits of h have eaten in list order,
      starting from field g: each takes what its cell holds and bares it. */
  function GrazePrefix(g: Grid, h: seq<Bunny>, n: int, k: nat): (s: (Grid, seq<Bunny>))
    requires IsGrid(g, n) && OnField(h, n) && k <= |h|
    ensures IsGrid(s.0, n) && |s.1| == |h|
    ensures forall j :: 0 <= j < |h| ==> s.1[j].x == h[j].x && s.1[j].y == h[j].y
    decreases k
  {
    if k == 0 then (g, h)
    else
      var (g', h') := GrazePrefix(g, h, n, k - 1);
      var b := h'[k - 1];
      (Cleared(g', b.x, b.y), h'[k - 1 := b.(eaten := b.eaten + g'[b.x][b.y])])
  }

  /** One more rabbit eats: it gains what its cell holds and the cell is bared. */
  lemma GrazeStep(g: Grid, h: seq<Bunny>, n: int, k: nat)
    requires IsGrid(g, n) && OnField(h, n) && k < |h|
    ensures GrazePrefix(g, h, n, k + 1).0 == Cleared(GrazePrefix(g, h, n, k).0, h[k].x, h[k].y)
    ensures GrazePrefix(g, h, n, k + 1).1 == GrazePrefix(g, h, n, k).1[k := GrazePrefix(g, h, n, k).1[k].(
      eaten := GrazePrefix(g, h, n, k).1[k].eaten + GrazePrefix(g, h, n, k).0[h[k].x][h[k].y])]
  {
  }

  /** `Field.eat`: every rabbit, in list order, eats its cell. */
  function Graze(g: Grid, h: seq<Bunny>, n: int): (Grid, seq<Bunny>)
    requires IsGrid(g, n) && OnField(h, n)
  {
    GrazePrefix(g, h, n, |h|)
  }

  /** What the first k rabbits leave behind, without the loop: a rabbit
      gains its cell's grass exactly when it is the first on that cell, and
      a cell is bare exactly when some rabbit visited it. */
  lemma {:induction false} GrazePrefixClosedForm(g: Grid, h: seq<Bunny>, n: int, k: nat)
    requires IsGrid(g, n) && OnField(h, n) && k <= |h|
    ensures forall j :: 0 <= j < |h| ==>
      GrazePrefix(g, h, n, k).1[j].eaten == h[j].eaten + (if j < k && FirstOnCell(h, j) then g[h[j].x][h[j].y] else 0)
    ensures forall a, c :: 0 <= a < n && 0 <= c < n ==>
      GrazePrefix(g, h, n, k).0[a][c] == if Visited(h, k, a, c) then 0 else g[a][c]
  {
    if k > 0 {
      GrazePrefixClosedForm(g, h, n, k - 1);
      var (g', h') := GrazePrefix(g, h, n, k - 1);
      var s := GrazePrefix(g, h, n, k);
      var b := h'[k - 1];
      assert b.x == h[k - 1].x && b.y == h[k - 1].y;
      assert s.0 == Cleared(g', b.x, b.y);
      forall j | 0 <= j < |h|
        ensures s.1[j].eaten == h[j].eaten + (if j < k && FirstOnCell(h, j) then g[h[j].x][h[j].y] else 0)
      {
        if j == k - 1 {
          assert s.1[j].eaten == h'[j].eaten + g'[b.x][b.y];
        } else {
          assert s.1[j] == h'[j];
        }
      }
    }
  }

  /** `Field.eat` as a whole: a cell feeds only the first rabbit standing on
      it; afterwards every rabbit's cell is bare; grass only disappears, and
      a 0/1 field stays 0/1. */
  lemma GrazeFeedsFirstVisitor(g: Grid, h: seq<Bunny>, n: int)
    requires IsGrid(g, n) && OnField(h, n)
    ensures forall j :: 0 <= j < |h| ==>
      Graze(g, h, n).1[j] == h[j].(eaten := h[j].eaten + if FirstOnCell(h, j) then g[h[j].x][h[j].y] else 0)
    ensures forall j :: 0 <= j < |h| ==> Graze(g, h, n).0[h[j].x][h[j].y] == 0
    ensures Grazed(g, Graze(g, h, n).0, n)
    ensures IsBinary(g, n) ==> IsBinary(Graze(g, h, n).0, n)
  {
    GrazePrefixClosedForm(g, h, n, |h|);
    forall j | 0 <= j < |h|
      ensures Graze(g, h, n).0[h[j].x][h[j].y] == 0
    {
      VisitedByEarlier(h, |h|, j);
    }
  }

  /** All the rabbits have eaten, together. */
  function Meals(h: seq<Bunny>): int {
    if h == [] then 0 else Meals(h[..|h| - 1]) + h[|h| - 1].eaten
  }

  lemma {:induction false} MealsUpdate(h: seq<Bunny>, k: nat, b: Bunny)
    requires k < |h|
    ensures Meals(h[k := b]) == Meals(h) - h[k].eaten + b.eaten
  {
    var h' := h[k := b];
    if k == |h| - 1 {
      assert h'[..|h'| - 1] == h[..|h| - 1];
    } else {
      assert h'[..|h'| - 1] == h[..|h| - 1][k := b];
      MealsUpdate(h[..|h| - 1], k, b);
    }
  }

  /** Eating leaves a 0/1 field a 0/1 field. */
  lemma GrazeStaysBinary(g: Grid, h: seq<Bunny>, n: int)
    requires IsBinary(g, n) && OnField(h, n)
    ensures IsBinary(Graze(g, h, n).0, n)
  {
    GrazeFeedsFirstVisitor(g, h, n);
  }

  /** Grass is conserved while the rabbits eat: what they gain is what the
      field loses. */
  lemma {:induction false} GrazePrefixConserves(g: Grid, h: seq<Bunny>, n: int, k: nat)
    requires IsGrid(g, n) && OnField(h, n) && k <= |h|
    ensures Meals(GrazePrefix(g, h, n, k).1) - Meals(h) == Total(g) - Total(GrazePrefix(g, h, n, k).0)
  {
    if k > 0 {
      GrazePrefixConserves(g, h, n, k - 1);
      var s := GrazePrefix(g, h, n, k - 1);
      var g', h' := s.0, s.1;
      var b := h'[k - 1];
      assert b.x == h[k - 1].x && b.y == h[k - 1].y;
      var after := h'[k - 1 := b.(eaten := b.eaten + g'[b.x][b.y])];
      assert GrazePrefix(g, h, n, k) == (Cleared(g', b.x, b.y), after);
      TotalCleared(g', b.x, b.y);
      MealsUpdate(h', k - 1, after[k - 1]);
    }
  }

  /** On a 0/1 field the rabbits of a tick together gain exactly the number
      of cells that went from grass to bare. */
  lemma GrazeEatsWhatDisappears(g: Grid, h: seq<Bunny>, n: nat)
    requires IsBinary(g, n) && OnField(h, n)
    ensures Meals(Graze(g, h, n).1) - Meals(h) == Drops(g, Graze(g, h, n).0)
  {
    GrazePrefixConserves(g, h, n, |h|);
    GrazeFeedsFirstVisitor(g, h, n);
    LossIsDrops(g, Graze(g, h, n).0, n);
  }

  // ---------------------------------------------------------------------
  // survive

  /** `[r for r in rabbits if r.eaten > 0]`. */
  function Fed(h: seq<Bunny>): seq<Bunny> {
    if h == [] then [] else Fed(h[..|h| - 1]) + (if h[|h| - 1].eaten > 0 then [h[|h| - 1]] else [])
  }

  /** The cull keeps only rabbits that were on the field. */
  lemma FedOnField(h: seq<Bunny>, n: int)
    requires OnField(h, n)
    ensures OnField(Fed(h), n)
  {
    FedFilters(h);
    forall k | 0 <= k < |Fed(h)|
      ensures 0 <= Fed(h)[k].x < n && 0 <= Fed(h)[k].y < n
    {
      assert Fed(h)[k] in h;
    }
  }

  /** `survive` keeps exactly the rabbits that ate, in their original order. */
  lemma {:induction false} FedFilters(h: seq<Bunny>)
    ensures forall b :: b in Fed(h) <==> b in h && b.eaten > 0
    ensures IsSubsequence(Fed(h), h)
  {
    if h != [] {
      var front, last := h[..|h| - 1], h[|h| - 1];
      assert h == front + [last];
      FedFilters(front);
      if last.eaten > 0 {
        SubsequenceKeep(Fed(front), front, last);
      } else {
        assert Fed(h) == Fed(front);
        SubsequenceSkip(Fed(front), front, last);
      }
    }
  }

  lemma {:induction false} FedAppend(a: seq<Bunny>, b: seq<Bunny>)
    ensures Fed(a + b) == Fed(a) + Fed(b)
    decreases |b|
  {
    if b == [] {
      assert a + b == a;
    } else {
      var c, front, last := a + b, b[..|b| - 1], b[|b| - 1];
      assert c[..|c| - 1] == a + front;
      assert c[|c| - 1] == last;
      FedAppend(a, front);
      var t := if last.eaten > 0 then [last] else [];
      assert Fed(c) == Fed(a + front) + t;
      assert Fed(b) == Fed(front) + t;
    }
  }

  // ---------------------------------------------------------------------
  // reproduce

  /** The rabbit after its litter: `reproduce` zeroes its meal counter once
      it has had at least one kit. */
  function Parent(b: Bunny, litter: nat): Bunny {
    if litter > 0 then b.(eaten := 0) else b
  }

  /** The litter: `reproduce` zeroes the parent and then deep-copies it, so
      every kit sits on the parent's cell with nothing eaten. */
  function Kits(b: Bunny, litter: nat): seq<Bunny> {
    seq(litter, _ => b.(eaten := 0))
  }

  /** All kits of the rabbits in h, in birth order. */
  function Litters(h: seq<Bunny>, litters: seq<nat>): seq<Bunny>
    requires |litters| == |h|
  {
    if h == [] then []
    else Litters(h[..|h| - 1], litters[..|h| - 1]) + Kits(h[|h| - 1], litters[|h| - 1])
  }

  /** `Field.reproduce`: the parents keep their places, and the kits follow
      them at the end of the list. */
  function Breed(h: seq<Bunny>, litters: seq<nat>): seq<Bunny>
    requires |litters| == |h|
  {
    Parents(h, litters) + Litters(h, litters)
  }

  /** The rabbits themselves after `reproduce`: the ones that bred are reset. */
  function Parents(h: seq<Bunny>, litters: seq<nat>): seq<Bunny>
    requires |litters| == |h|
  {
    seq(|h|, k requires 0 <= k < |h| => Parent(h[k], litters[k]))
  }

  /** The loop of `reproduce` after i rabbits: those have bred, the rest not yet. */
  function BredUpTo(h: seq<Bunny>, litters: seq<nat>, i: nat): (r: seq<Bunny>)
    requires |litters| == |h| && i <= |h|
    ensures |r| == |h| && forall k :: i <= k < |h| ==> r[k] == h[k]
  {
    if i == 0 then h else BredUpTo(h, litters, i - 1)[i - 1 := Parent(h[i - 1], litters[i - 1])]
  }

  /** After i rabbits the first i are reset parents and the rest are untouched;
      once every rabbit has had its turn the list is `Parents`. */
  lemma {:induction false} BredUpToParents(h: seq<Bunny>, litters: seq<nat>, i: nat)
    requires |litters| == |h| && i <= |h|
    ensures BredUpTo(h, litters, i) == Parents(h[..i], litters[..i]) + h[i..]
  {
    if i > 0 {
      BredUpToParents(h, litters, i - 1);
      var a, b := BredUpTo(h, litters, i), Parents(h[..i], litters[..i]) + h[i..];
      forall k | 0 <= k < |h|
        ensures a[k] == b[k]
      {
        if k < i - 1 {
          assert a[k] == Parents(h[..i - 1], litters[..i - 1])[k];
        } else if k > i - 1 {
          assert a[k] == h[k];
        }
      }
    }
  }

  /** One more rabbit breeds: its kits follow the earlier ones. */
  lemma LittersStep(h: seq<Bunny>, litters: seq<nat>, i: nat)
    requires |litters| == |h| && i < |h|
    ensures Litters(h[..i + 1], litters[..i + 1]) == Litters(h[..i], litters[..i]) + Kits(h[i], litters[i])
  {
    assert h[..i + 1][..i] == h[..i] && litters[..i + 1][..i] == litters[..i];
  }

  /** What the kits are: one per draw, each with nothing eaten, each on the
      cell of a rabbit that bred. */
  lemma {:induction false} LittersShape(h: seq<Bunny>, litters: seq<nat>)
    requires |litters| == |h|
    ensures |Litters(h, litters)| == Sum(litters)
    ensures forall b :: b in Litters(h, litters) ==>
      b.eaten == 0 && exists k :: 0 <= k < |h| && litters[k] > 0 && b.x == h[k].x && b.y == h[k].y
  {
    if h != [] {
      var m := |h| - 1;
      LittersShape(h[..m], litters[..m]);
      assert litters[..m] + [litters[m]] == litters;
      forall b | b in Litters(h, litters)
        ensures b.eaten == 0 && exists k :: 0 <= k < |h| && litters[k] > 0 && b.x == h[k].x && b.y == h[k].y
      {
        if b in Litters(h[..m], litters[..m]) {
          var k :| 0 <= k < m && litters[..m][k] > 0 && b.x == h[..m][k].x && b.y == h[..m][k].y;
          assert litters[k] > 0 && b.x == h[k].x && b.y == h[k].y;
        } else {
          assert b in Kits(h[m], litters[m]);
          assert litters[m] > 0 && b.x == h[m].x && b.y == h[m].y;
        }
      }
    }
  }

  lemma {:induction false} SumBounded(s: seq<nat>, bound: nat)
    requires forall k :: 0 <= k < |s| ==> s[k] <= bound
    ensures Sum(s) <= bound * |s|
  {
    if s != [] {
      SumBounded(s[..|s| - 1], bound);
    }
  }

  /** `Field.reproduce` as a whole: the old rabbits stay first and on their
      cells; each adds between 0 and `offspring` kits; a rabbit that had a
      kit has eaten 0, one that had none is unchanged; every kit has eaten 0
      and sits on a parent's cell. */
  lemma BreedShape(h: seq<Bunny>, litters: seq<nat>, offspring: nat)
    requires |litters| == |h| && forall k :: 0 <= k < |litters| ==> litters[k] <= offspring
    ensures |h| <= |Breed(h, litters)| <= |h| + offspring * |h|
    ensures forall k :: 0 <= k < |h| ==>
      Breed(h, litters)[k].x == h[k].x && Breed(h, litters)[k].y == h[k].y &&
      Breed(h, litters)[k].eaten == (if litters[k] > 0 then 0 else h[k].eaten)
    ensures forall k :: |h| <= k < |Breed(h, litters)| ==>
      && Breed(h, litters)[k].eaten == 0
      && exists p :: 0 <= p < |h| && litters[p] > 0 && Breed(h, litters)[k].x == h[p].x && Breed(h, litters)[k].y == h[p].y
  {
    LittersShape(h, litters);
    SumBounded(litters, offspring);
    var r := Breed(h, litters);
    forall k | |h| <= k < |r|
      ensures r[k].eaten == 0 && exists p :: 0 <= p < |h| && litters[p] > 0 && r[k].x == h[p].x && r[k].y == h[p].y
    {
      assert r[k] == Litters(h, litters)[k - |h|];
    }
  }

  /** Breeding puts every kit on a parent's cell, so the herd stays on the field. */
  lemma BreedOnField(h: seq<Bunny>, litters: seq<nat>, n: int)
    requires |litters| == |h| && OnField(h, n)
    ensures OnField(Breed(h, litters), n)
  {
    LittersShape(h, litters);
    var r := Breed(h, litters);
    forall k | |h| <= k < |r|
      ensures 0 <= r[k].x < n && 0 <= r[k].y < n
    {
      assert r[k] in Litters(h, litters);
    }
  }

  // ---------------------------------------------------------------------
  // generation

  /** The rabbits of h that had no kits and have eaten, in order. */
  function Idle(h: seq<Bunny>, litters: seq<nat>): seq<Bunny>
    requires |litters| == |h|
  {
    if h == [] then []
    else
      Idle(h[..|h| - 1], litters[..|h| - 1])
      + (if litters[|h| - 1] == 0 && h[|h| - 1].eaten > 0 then [h[|h| - 1]] else [])
  }

  /** `Field.generation`: move, eat, grow, reproduce, survive. */
  function Tick(g: Grid, h: seq<Bunny>, n: int, steps: seq<(int, int)>, mask: Grid, litters: seq<nat>): (Grid, seq<Bunny>)
    requires n > 0 && IsGrid(g, n) && IsGrid(mask, n) && |steps| == |h| && |litters| == |h|
  {
    var moved := HopAll(h, steps, n);
    var (grazed, fed) := Graze(g, moved, n);
    (MaxMerge(grazed, mask, n), Fed(Breed(fed, litters)))
  }

  lemma {:induction false} FedParents(h: seq<Bunny>, litters: seq<nat>)
    requires |litters| == |h|
    ensures Fed(Parents(h, litters)) == Idle(h, litters)
  {
    var ps := Parents(h, litters);
    if h != [] {
      var m := |h| - 1;
      var front := seq(m, k requires 0 <= k < m => Parent(h[..m][k], litters[..m][k]));
      assert ps == front + [Parent(h[m], litters[m])];
      FedParents(h[..m], litters[..m]);
      FedAppend(front, [Parent(h[m], litters[m])]);
      assert [Parent(h[m], litters[m])][..0] == [];
    }
  }

  lemma {:induction false} FedLitters(h: seq<Bunny>, litters: seq<nat>)
    requires |litters| == |h|
    ensures Fed(Litters(h, litters)) == []
  {
    LittersShape(h, litters);
    FedFilters(Litters(h, litters));
  }

  /** The cull at the end of a tick: the survivors are exactly the rabbits
      that ate this tick and had no kits, in order. Every rabbit that bred
      is gone, since breeding zeroed its counter, and so is every kit, which
      was born with nothing eaten; the population never grows in a tick. */
  lemma TickSurvivors(g: Grid, h: seq<Bunny>, n: int, steps: seq<(int, int)>, mask: Grid, litters: seq<nat>)
    requires n > 0 && IsGrid(g, n) && IsGrid(mask, n) && |steps| == |h| && |litters| == |h|
    ensures Tick(g, h, n, steps, mask, litters).1 == Idle(Graze(g, HopAll(h, steps, n), n).1, litters)
    ensures forall b :: b in Tick(g, h, n, steps, mask, litters).1 ==> b.eaten > 0
    ensures |Tick(g, h, n, steps, mask, litters).1| <= |h|
  {
    var fed := Graze(g, HopAll(h, steps, n), n).1;
    var ps := Parents(fed, litters);
    FedAppend(ps, Litters(fed, litters));
    FedParents(fed, litters);
    FedLitters(fed, litters);
    IdleShape(fed, litters);
  }

  lemma {:induction false} IdleShape(h: seq<Bunny>, litters: seq<nat>)
    requires |litters| == |h|
    ensures |Idle(h, litters)| <= |h|
    ensures forall b :: b in Idle(h, litters) ==> b.eaten > 0
  {
    if h != [] {
      IdleShape(h[..|h| - 1], litters[..|h| - 1]);
    }
  }

  /** A tick keeps the field a 0/1 field, and grass cut this tick can come
      back only through the regrowth mask, which runs after eating. */
  lemma TickField(g: Grid, h: seq<Bunny>, n: int, steps: seq<(int, int)>, mask: Grid, litters: seq<nat>)
    requires n > 0 && IsBinary(g, n) && IsBinary(mask, n) && |steps| == |h| && |litters| == |h|
    ensures IsBinary(Tick(g, h, n, steps, mask, litters).0, n)
    ensures forall a, c :: 0 <= a < n && 0 <= c < n ==>
      Tick(g, h, n, steps, mask, litters).0[a][c] == Max(Graze(g, HopAll(h, steps, n), n).0[a][c], mask[a][c])
  {
    GrazeFeedsFirstVisitor(g, HopAll(h, steps, n), n);
  }
}
