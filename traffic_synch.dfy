/**
 * The intersection controller of the traffic simulation: a 4x4 counter
 * matrix `could_access` in which cell [a][b] counts the vehicles now in the
 * intersection that forbid a new vehicle to take the path a -> b.
 *
 * Directions are the raw values of the simulation's Direction enumeration,
 * taken in the order north = 0, east = 1, south = 2, west = 3.  The lock and
 * the four per-origin condition variables are not modelled: the admission
 * wait becomes a precondition of Enter, and the broadcasts of Exit become
 * the set of origins it returns.
 */
module TrafficSynch {

  const North: int := 0
  const East: int := 1
  const South: int := 2
  const West: int := 3

  /** One of the four compass values of the enumeration. */
  predicate IsCompass(which: int) {
    North <= which <= West
  }

  type Dir = d: int | 0 <= d < 4

  /** The path a vehicle takes through the intersection. */
  datatype Path = Path(origin: Dir, destination: Dir)

  /** which_direction: the matrix index of a direction, 4 for anything else. */
  function WhichDirection(which: int): (r: int)
    ensures 0 <= r <= 4
    ensures r < 4 <==> IsCompass(which)
    ensures IsCompass(which) ==> r == which
  {
    if which == North then 0
    else if which == East then 1
    else if which == South then 2
    else if which == West then 3
    else 4
  }

  /**
   * if_right_turning.  RightTurnIsPreviousNeighbour states its meaning: a
   * right turn leaves towards the compass neighbour that comes just before the
   * origin in the order north, east, south, west.
   */
  function IfRightTurning(o: int, d: int): bool {
    if o == 2 && d == 1 then true
    else if o == 1 && d == 0 then true
    else if o == 0 && d == 3 then true
    else if o == 3 && d == 2 then true
    else false
  }

  lemma RightTurnIsPreviousNeighbour(o: int, d: int)
    ensures IfRightTurning(o, d) <==> IsCompass(o) && d == (o + 3) % 4
  {
  }

  /** Exactly four of the sixteen (origin, destination) pairs are right turns. */
  lemma RightTurnsAreFour()
    ensures (set o, d | 0 <= o < 4 && 0 <= d < 4 && IfRightTurning(o, d) :: (o, d))
            == {(South, East), (East, North), (North, West), (West, South)}
  {
  }

  /**
   * The exemption mask: a vehicle on path p forbids path a -> b unless one of
   * the four `continue` tests of the matrix loops skips the cell.
   */
  ghost predicate Forbids(p: Path, a: int, b: int) {
    var start, finish := p.origin, p.destination;
    !(a == b)
    && !(a == start)
    && !(a == finish && b == start)
    && !(b != finish && (IfRightTurning(start, finish) || IfRightTurning(a, b)))
  }

  ghost function Mask(p: Path, a: int, b: int): nat {
    if Forbids(p, a, b) then 1 else 0
  }

  /** The value cell [a][b] must hold while the vehicles vs are inside. */
  ghost function Load(vs: seq<Path>, a: int, b: int): (n: nat)
    ensures n <= |vs|
  {
    if vs == [] then 0 else Load(vs[..|vs| - 1], a, b) + Mask(vs[|vs| - 1], a, b)
  }

  /** The vehicles vs with the first occurrence of p taken out. */
  ghost function RemoveOne(vs: seq<Path>, p: Path): (r: seq<Path>)
    ensures p in vs ==> multiset(r) == multiset(vs) - multiset{p}
    ensures p !in vs ==> r == vs
    ensures forall x :: x in r ==> x in vs
  {
    if vs == [] then []
    else
      assert vs == [vs[0]] + vs[1..];
      if vs[0] == p then vs[1..] else [vs[0]] + RemoveOne(vs[1..], p)
  }

  /** Two vehicles inside never stand in each other's way. */
  ghost predicate NoConflict(vs: seq<Path>) {
    forall i, j :: 0 <= i < |vs| && 0 <= j < |vs| && i != j ==>
      !Forbids(vs[i], vs[j].origin, vs[j].destination)
  }

  /**
   * The guarantee of the admission test: no vehicle is forbidden by one
   * that entered before it.
   */
  ghost predicate AdmittedInOrder(vs: seq<Path>) {
    forall i, j :: 0 <= i < j < |vs| ==> !Forbids(vs[i], vs[j].origin, vs[j].destination)
  }

  lemma LoadSnoc(vs: seq<Path>, p: Path, a: int, b: int)
    ensures Load(vs + [p], a, b) == Load(vs, a, b) + Mask(p, a, b)
  {
  }

  lemma {:induction false} LoadAppend(s: seq<Path>, t: seq<Path>, a: int, b: int)
    ensures Load(s + t, a, b) == Load(s, a, b) + Load(t, a, b)
  {
    if t == [] {
      assert s + t == s;
    } else {
      var t' := t[..|t| - 1];
      var last := t[|t| - 1];
      assert s + t == (s + t') + [last];
      assert t == t' + [last];
      LoadAppend(s, t', a, b);
      LoadSnoc(s + t', last, a, b);
      LoadSnoc(t', last, a, b);
    }
  }

  /** A cell is zero exactly when no vehicle inside forbids its path. */
  lemma {:induction false} LoadZeroIff(vs: seq<Path>, a: int, b: int)
    ensures Load(vs, a, b) == 0 <==> forall i :: 0 <= i < |vs| ==> !Forbids(vs[i], a, b)
  {
    if vs != [] {
      var vs' := vs[..|vs| - 1];
      LoadZeroIff(vs', a, b);
      assert forall i :: 0 <= i < |vs'| ==> vs'[i] == vs[i];
    }
  }

  /** Taking one vehicle out lowers every cell by exactly that vehicle's mask. */
  lemma {:induction false} LoadRemoveOne(vs: seq<Path>, p: Path, a: int, b: int)
    requires p in vs
    ensures Load(RemoveOne(vs, p), a, b) + Mask(p, a, b) == Load(vs, a, b)
  {
    assert vs == [vs[0]] + vs[1..];
    LoadAppend([vs[0]], vs[1..], a, b);
    LoadSnoc([], vs[0], a, b);
    if vs[0] != p {
      LoadRemoveOne(vs[1..], p, a, b);
      LoadAppend([vs[0]], RemoveOne(vs[1..], p), a, b);
    }
  }

  /** A vehicle's entry followed by its matching exit leaves the matrix as it was. */
  lemma EnterThenExitRestores(vs: seq<Path>, p: Path)
    ensures forall a, b :: Load(RemoveOne(vs + [p], p), a, b) == Load(vs, a, b)
  {
    forall a, b ensures Load(RemoveOne(vs + [p], p), a, b) == Load(vs, a, b) {
      LoadRemoveOne(vs + [p], p, a, b);
      LoadSnoc(vs, p, a, b);
    }
  }

  /**
   * No vehicle ever forbids a U-turn path or a path from its own origin, so
   * vehicles queued on one approach never wait for each other.
   */
  lemma SameOriginNeverWaits(vs: seq<Path>, o: Dir, d: Dir)
    requires forall i :: 0 <= i < |vs| ==> vs[i].origin == o
    ensures Load(vs, o, d) == 0
    ensures Load(vs, d, d) == 0
  {
  }

  /** Apart from U-turns, the mask is symmetric: p forbids q exactly when q forbids p. */
  lemma ForbidsSymmetricOffDiagonal(p: Path, q: Path)
    requires p.origin != p.destination && q.origin != q.destination
    ensures Forbids(p, q.origin, q.destination) <==> Forbids(q, p.origin, p.destination)
  {
  }

  /** A right-turning vehicle forbids only other paths towards its own exit. */
  lemma RightTurnForbidsOnlyItsExit(p: Path, a: Dir, b: Dir)
    requires IfRightTurning(p.origin, p.destination)
    ensures Forbids(p, a, b) <==> a != p.origin && a != p.destination && b == p.destination
  {
  }

  /**
   * The right turn north -> west waits only for vehicles from another
   * origin that also leave westwards.
   */
  lemma NorthWestWaitsOnlyForWest(q: Path)
    ensures Forbids(q, North, West) <==> q.origin != North && q.destination == West
  {
  }

  /**
   * Admission keeps the vehicles inside pairwise free of conflict, as long as
   * the admitted vehicle is not making a U-turn.
   */
  lemma AdmissionKeepsNoConflict(vs: seq<Path>, p: Path)
    requires NoConflict(vs)
    requires Load(vs, p.origin, p.destination) == 0
    requires p.origin != p.destination
    ensures NoConflict(vs + [p])
  {
    LoadZeroIff(vs, p.origin, p.destination);
    var ws := vs + [p];
    forall i, j | 0 <= i < |ws| && 0 <= j < |ws| && i != j
      ensures !Forbids(ws[i], ws[j].origin, ws[j].destination)
    {
      if i == |vs| {
        if ws[j].origin != ws[j].destination {
          ForbidsSymmetricOffDiagonal(p, ws[j]);
        }
      }
    }
  }

  /** A vehicle leaving keeps the vehicles still inside free of conflict. */
  lemma ExitKeepsNoConflict(vs: seq<Path>, p: Path)
    requires NoConflict(vs)
    ensures NoConflict(RemoveOne(vs, p))
  {
    var r := RemoveOne(vs, p);
    forall i, j | 0 <= i < |r| && 0 <= j < |r| && i != j
      ensures !Forbids(r[i], r[j].origin, r[j].destination)
    {
      if r[i] != r[j] {
        assert r[i] in vs && r[j] in vs;
        var k :| 0 <= k < |vs| && vs[k] == r[i];
        var l :| 0 <= l < |vs| && vs[l] == r[j];
      }
    }
  }

  /** Admitting a vehicle whose cell is zero keeps the admission order. */
  lemma AdmissionKeepsOrder(vs: seq<Path>, p: Path)
    requires AdmittedInOrder(vs)
    requires Load(vs, p.origin, p.destination) == 0
    ensures AdmittedInOrder(vs + [p])
  {
    LoadZeroIff(vs, p.origin, p.destination);
  }

  /** A vehicle leaving keeps the admission order of the others. */
  lemma {:induction false} ExitKeepsOrder(vs: seq<Path>, p: Path)
    requires AdmittedInOrder(vs)
    ensures AdmittedInOrder(RemoveOne(vs, p))
  {
    if vs != [] && vs[0] != p {
      var rest := RemoveOne(vs[1..], p);
      ExitKeepsOrder(vs[1..], p);
      forall j | 0 <= j < |rest| ensures !Forbids(vs[0], rest[j].origin, rest[j].destination) {
        assert rest[j] in vs[1..];
        var l :| 0 <= l < |vs[1..]| && vs[1..][l] == rest[j];
        assert vs[l + 1] == rest[j];
      }
      var r := [vs[0]] + rest;
      forall i, j | 0 <= i < j < |r| ensures !Forbids(r[i], r[j].origin, r[j].destination) {
        if i > 0 {
          assert r[i] == rest[i - 1] && r[j] == rest[j - 1];
        }
      }
    }
  }

  /**
   * Vehicles admitted in order, none of them making a U-turn, are pairwise
   * free of conflict: for such paths the mask is symmetric.
   */
  lemma InOrderNoConflict(vs: seq<Path>)
    requires AdmittedInOrder(vs)
    requires forall i :: 0 <= i < |vs| ==> vs[i].origin != vs[i].destination
    ensures NoConflict(vs)
  {
  }

  /**
   * The exception: a U-turn from north is admitted while east -> west is
   * inside (diagonal cells are never counted), although its own mask forbids
   * east -> west.
   */
  lemma UTurnAdmittedAgainstItsMask()
    ensures NoConflict([Path(East, West)])
    ensures Load([Path(East, West)], North, North) == 0
    ensures !NoConflict([Path(East, West), Path(North, North)])
  {
    var ws := [Path(East, West), Path(North, North)];
    assert Forbids(ws[1], ws[0].origin, ws[0].destination);
  }

  /**
   * Opposing through traffic is admitted together; a left turn north -> east
   * waits for east -> west; a right turn north -> west does not wait for
   * east -> south but does wait for east -> west, which leaves by the same exit.
   */
  lemma Scenarios()
    ensures Load([Path(North, South)], South, North) == 0
    ensures Load([Path(East, West)], North, East) == 1
    ensures Load([Path(East, South)], North, West) == 0
    ensures Load([Path(East, West)], North, West) == 1
  {
  }

  /**
   * Some cell [x][y] with y < n that the vehicle p forbids held exactly one
   * in the matrix m, so that taking p out brings it to zero.
   */
  ghost predicate DropsToZero(p: Path, m: seq<seq<int>>, x: int, n: int)
    requires |m| == 4 && forall r :: 0 <= r < 4 ==> |m[r]| == 4
    requires 0 <= x < 4 && 0 <= n <= 4
  {
    n > 0 && (DropsToZero(p, m, x, n - 1) || (Forbids(p, x, n - 1) && m[x][n - 1] == 1))
  }

  lemma {:induction false} DropsToZeroIff(p: Path, m: seq<seq<int>>, x: int, n: int)
    requires |m| == 4 && forall r :: 0 <= r < 4 ==> |m[r]| == 4
    requires 0 <= x < 4 && 0 <= n <= 4
    ensures DropsToZero(p, m, x, n) <==> exists y :: 0 <= y < n && Forbids(p, x, y) && m[x][y] == 1
  {
    if n > 0 {
      DropsToZeroIff(p, m, x, n - 1);
    }
  }

  class Intersection {
    var couldAccess: array2<int>
    /** The vehicles that have entered and not yet left. */
    ghost var Inside: seq<Path>

    /**
     * The matrix is the pointwise sum of the masks of the vehicles inside,
     * and no vehicle inside is forbidden by one that entered before it.
     */
    ghost predicate Valid()
      reads this, couldAccess
    {
      couldAccess.Length0 == 4 && couldAccess.Length1 == 4
      && (forall a, b :: 0 <= a < 4 && 0 <= b < 4 ==> couldAccess[a, b] == Load(Inside, a, b))
      && AdmittedInOrder(Inside)
    }

    /**
     * In any reachable state, no two vehicles inside that are not making
     * U-turns conflict, whatever U-turns are inside with them.
     */
    lemma InsideNoConflict()
      requires Valid()
      ensures forall i, j ::
        (0 <= i < |Inside| && 0 <= j < |Inside| && i != j
         && Inside[i].origin != Inside[i].destination && Inside[j].origin != Inside[j].destination)
        ==> !Forbids(Inside[i], Inside[j].origin, Inside[j].destination)
    {
    }

    /** The current contents of the matrix, row by row. */
    ghost function Cells(): (m: seq<seq<int>>)
      reads this, couldAccess
      requires couldAccess.Length0 == 4 && couldAccess.Length1 == 4
      ensures |m| == 4 && forall x :: 0 <= x < 4 ==> |m[x]| == 4
      ensures forall x, y :: 0 <= x < 4 && 0 <= y < 4 ==> m[x][y] == couldAccess[x, y]
    {
      var c := couldAccess;
      seq(4, x requires 0 <= x < 4 reads c => seq(4, y requires 0 <= y < 4 reads c => c[x, y]))
    }

    /** intersection_sync_init: every cell starts at zero. */
    constructor ()
      ensures Valid() && fresh(couldAccess) && Inside == []
      ensures forall a, b :: 0 <= a < 4 && 0 <= b < 4 ==> couldAccess[a, b] == 0
    {
      var m := new int[4, 4];
      var a := 0;
      while a < 4
        invariant 0 <= a <= 4
        invariant forall x, y :: 0 <= x < a && 0 <= y < 4 ==> m[x, y] == 0
      {
        var b := 0;
        while b < 4
          invariant 0 <= b <= 4
          invariant forall x, y :: 0 <= x < 4 && 0 <= y < 4 && (x < a || (x == a && y < b)) ==> m[x, y] == 0
        {
          m[a, b] := 0;
          b := b + 1;
        }
        a := a + 1;
      }
      couldAccess := m;
      Inside := [];
    }

    /** The admission test of intersection_before_entry: must the vehicle wait? */
    method MustWait(origin: int, destination: int) returns (wait: bool)
      requires Valid() && IsCompass(origin) && IsCompass(destination)
      ensures wait <==> exists i :: 0 <= i < |Inside| && Forbids(Inside[i], origin, destination)
    {
      wait := couldAccess[origin, destination] != 0;
      LoadZeroIff(Inside, origin, destination);
    }

    /** The matrix loops of intersection_before_entry: every cell grows by the vehicle's mask. */
    method AddMask(origin: int, destination: int)
      requires couldAccess.Length0 == 4 && couldAccess.Length1 == 4
      requires IsCompass(origin) && IsCompass(destination)
      modifies couldAccess
      ensures forall a, b :: 0 <= a < 4 && 0 <= b < 4 ==>
        couldAccess[a, b] == old(couldAccess[a, b]) + Mask(Path(origin, destination), a, b)
    {
      var start := WhichDirection(origin);
      var finish := WhichDirection(destination);
      ghost var p := Path(origin, destination);
      ghost var before := Cells();
      var a := 0;
      while a < 4
        invariant 0 <= a <= 4
        invariant forall x, y :: 0 <= x < 4 && 0 <= y < 4 ==>
          couldAccess[x, y] == before[x][y] + (if x < a then Mask(p, x, y) else 0)
      {
        var b := 0;
        while b < 4
          invariant 0 <= b <= 4
          invariant forall x, y :: 0 <= x < 4 && 0 <= y < 4 ==>
            couldAccess[x, y] == before[x][y] + (if x < a || (x == a && y < b) then Mask(p, x, y) else 0)
        {
          var skip := a == b || a == start || (a == finish && b == start)
                      || (b != finish && (IfRightTurning(start, finish) || IfRightTurning(a, b)));
          assert skip == !Forbids(p, a, b);
          if !skip {
            couldAccess[a, b] := couldAccess[a, b] + 1;
          }
          b := b + 1;
        }
        a := a + 1;
      }
    }

    /**
     * The matrix loops of intersection_after_exit: every cell drops by the
     * vehicle's mask, and origin a is woken when a cell [a][b] it lowers
     * reaches zero.
     */
    method SubtractMask(origin: int, destination: int) returns (woken: set<int>)
      requires couldAccess.Length0 == 4 && couldAccess.Length1 == 4
      requires IsCompass(origin) && IsCompass(destination)
      modifies couldAccess
      ensures forall a, b :: 0 <= a < 4 && 0 <= b < 4 ==>
        couldAccess[a, b] == old(couldAccess[a, b]) - Mask(Path(origin, destination), a, b)
      ensures forall a :: a in woken <==>
        0 <= a < 4 && exists b :: 0 <= b < 4 && Forbids(Path(origin, destination), a, b) && couldAccess[a, b] == 0
    {
      var start := WhichDirection(origin);
      var finish := WhichDirection(destination);
      ghost var p := Path(origin, destination);
      ghost var before := Cells();
      woken := {};
      var a := 0;
      while a < 4
        invariant 0 <= a <= 4
        invariant forall x, y :: 0 <= x < 4 && 0 <= y < 4 ==>
          couldAccess[x, y] == before[x][y] - (if x < a then Mask(p, x, y) else 0)
        invariant forall x :: x in woken <==> 0 <= x < a && DropsToZero(p, before, x, 4)
      {
        var b := 0;
        while b < 4
          invariant 0 <= b <= 4
          invariant forall x, y :: 0 <= x < 4 && 0 <= y < 4 ==>
            couldAccess[x, y] == before[x][y] - (if x < a || (x == a && y < b) then Mask(p, x, y) else 0)
          invariant forall x :: x in woken <==>
            (0 <= x < a && DropsToZero(p, before, x, 4)) || (x == a && DropsToZero(p, before, a, b))
        {
          var skip := a == b || a == start || (a == finish && b == start)
                      || (b != finish && (IfRightTurning(start, finish) || IfRightTurning(a, b)));
          assert skip == !Forbids(p, a, b);
          if !skip {
            couldAccess[a, b] := couldAccess[a, b] - 1;
            // the broadcast to origin a
            woken := if couldAccess[a, b] == 0 then woken + {a} else woken;
          }
          b := b + 1;
        }
        a := a + 1;
      }
      forall x | 0 <= x < 4 ensures DropsToZero(p, before, x, 4) <==>
        exists y :: 0 <= y < 4 && Forbids(p, x, y) && couldAccess[x, y] == 0
      {
        DropsToZeroIff(p, before, x, 4);
      }
    }

    /** intersection_before_entry, from the moment its own cell is zero. */
    method Enter(origin: int, destination: int)
      requires Valid() && IsCompass(origin) && IsCompass(destination)
      requires couldAccess[origin, destination] == 0
      modifies this`Inside, couldAccess
      ensures Valid() && couldAccess == old(couldAccess)
      ensures Inside == old(Inside) + [Path(origin, destination)]
      ensures forall a, b :: 0 <= a < 4 && 0 <= b < 4 ==>
        couldAccess[a, b] == old(couldAccess[a, b]) + Mask(Path(origin, destination), a, b)
    {
      ghost var p := Path(origin, destination);
      AdmissionKeepsOrder(Inside, p);
      AddMask(origin, destination);
      forall x, y | 0 <= x < 4 && 0 <= y < 4 ensures couldAccess[x, y] == Load(Inside + [p], x, y) {
        LoadSnoc(Inside, p, x, y);
      }
      Inside := Inside + [p];
    }

    /**
     * intersection_after_exit for a vehicle that is inside.  Returns the
     * origins whose condition variable is broadcast: those with a cell that
     * this exit brought down to zero.
     */
    method Exit(origin: int, destination: int) returns (woken: set<int>)
      requires Valid() && IsCompass(origin) && IsCompass(destination)
      requires Path(origin, destination) in Inside
      modifies this`Inside, couldAccess
      ensures Valid() && couldAccess == old(couldAccess)
      ensures Inside == RemoveOne(old(Inside), Path(origin, destination))
      ensures forall a, b :: 0 <= a < 4 && 0 <= b < 4 ==>
        couldAccess[a, b] == old(couldAccess[a, b]) - Mask(Path(origin, destination), a, b)
        && couldAccess[a, b] >= 0
      ensures forall a :: a in woken <==>
        0 <= a < 4 && exists b :: 0 <= b < 4 && Forbids(Path(origin, destination), a, b) && couldAccess[a, b] == 0
    {
      ghost var p := Path(origin, destination);
      woken := SubtractMask(origin, destination);
      forall x, y | 0 <= x < 4 && 0 <= y < 4 ensures couldAccess[x, y] == Load(RemoveOne(Inside, p), x, y) {
        LoadRemoveOne(Inside, p, x, y);
      }
      ExitKeepsOrder(Inside, p);
      Inside := RemoveOne(Inside, p);
    }
  }
}
