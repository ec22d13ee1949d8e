/** The auth provider table and the order in which its rows form the login chain. */
module Providers {
  import opened Prelude

  datatype Provider = Provider(name: string, kind: string, enabled: bool, position: int, config: string)

  /** The rows by id. */
  type Table = map<int, Provider>

  datatype Direction = Up | Down

  /** Chain order: by position, then by id. */
  predicate Before(t: Table, a: int, b: int)
    requires a in t && b in t
  {
    t[a].position < t[b].position || (t[a].position == t[b].position && a < b)
  }

  /** `order` lists every id once, in chain order. */
  ghost predicate IsOrder(order: seq<int>, t: Table) {
    && (forall i | 0 <= i < |order| :: order[i] in t)
    && (forall id | id in t :: id in order)
    && (forall i, j | 0 <= i < j < |order| :: Before(t, order[i], order[j]))
  }

  ghost predicate DistinctPositions(t: Table) {
    forall a, b | a in t && b in t && a != b :: t[a].position != t[b].position
  }

  /** There is only one chain order. */
  lemma {:induction false} OrderUnique(a: seq<int>, b: seq<int>, t: Table)
    requires IsOrder(a, t) && IsOrder(b, t)
    ensures a == b
    decreases |a|
  {
    if a == [] {
      if b != [] {
        FirstIsLeast(a, t, b[0]);
      }
    } else {
      FirstIsLeast(b, t, a[0]);
      FirstIsLeast(a, t, b[0]);
      var rest := t - {a[0]};
      DropFirst(a, t);
      DropFirst(b, t);
      OrderUnique(a[1..], b[1..], rest);
    }
  }

  lemma FirstIsLeast(order: seq<int>, t: Table, id: int)
    requires IsOrder(order, t) && id in t
    ensures order != [] && (id == order[0] || Before(t, order[0], id))
  {
    assert id in order;
    var k :| 0 <= k < |order| && order[k] == id;
  }

  lemma DropFirst(order: seq<int>, t: Table)
    requires IsOrder(order, t) && order != []
    ensures IsOrder(order[1..], t - {order[0]})
  {
    var rest, u := order[1..], t - {order[0]};
    forall i | 0 <= i < |rest| ensures rest[i] in u {
      assert rest[i] == order[i + 1] && Before(t, order[0], order[i + 1]);
    }
    forall id | id in u ensures id in rest {
      assert id in order;
      var k :| 0 <= k < |order| && order[k] == id;
      assert rest[k - 1] == id;
    }
    forall i, j | 0 <= i < j < |rest| ensures Before(u, rest[i], rest[j]) {
      assert Before(t, order[i + 1], order[j + 1]);
    }
  }

  // ---------------------------------------------------------------- the changes as functions

  ghost predicate IsNextPosition(t: Table, position: int) {
    && (forall id | id in t :: t[id].position < position)
    && (if t == map[] then position == 0 else exists id | id in t :: t[id].position == position - 1)
  }

  /** The two rows trade positions. */
  function Swap(t: Table, a: int, b: int): Table
    requires a in t && b in t
  {
    t[a := t[a].(position := t[b].position)][b := t[b].(position := t[a].position)]
  }

  function Neighbour(idx: nat, count: nat, direction: Direction): Option<nat>
    requires idx < count
  {
    match direction
    case Up => if idx == 0 then None else Some(idx - 1)
    case Down => if idx + 1 >= count then None else Some(idx + 1)
  }

  /** The table after a move, given its chain order; an unknown id or an end changes nothing. */
  function Moved(t: Table, order: seq<int>, id: int, direction: Direction): Table
    requires forall i | 0 <= i < |order| :: order[i] in t
  {
    var idx := IndexOf(order, id);
    if idx == |order| then t else
    match Neighbour(idx, |order|, direction)
    case None => t
    case Some(n) => Swap(t, id, order[n])
  }

  // ---------------------------------------------------------------- the table

  class ProviderTable {
    var rows: Table
    /** The next row id; ids are not used again. */
    var nextId: int

    ghost predicate Valid()
      reads this
    {
      && DistinctPositions(rows)
      && (forall id | id in rows :: id < nextId)
      && (forall a, b | a in rows && b in rows && a != b :: rows[a].name != rows[b].name)
    }

    constructor ()
      ensures Valid() && rows == map[]
    {
      rows, nextId := map[], 1;
    }

    /** COALESCE(MAX(position), -1) + 1 */
    method NextPosition() returns (position: int)
      ensures IsNextPosition(rows, position)
    {
      var highest: Option<int> := None;
      var rest := rows.Keys;
      while rest != {}
        invariant rest <= rows.Keys
        invariant highest.None? ==> rest == rows.Keys
        invariant highest.Some? ==> forall id | id in rows && id !in rest :: rows[id].position <= highest.value
        invariant highest.Some? ==> exists id | id in rows :: rows[id].position == highest.value
        decreases |rest|
      {
        ghost var some := Member(rest);
        var id :| id in rest;
        if highest.None? || rows[id].position > highest.value {
          highest := Some(rows[id].position);
        }
        rest := rest - {id};
      }
      position := (if highest.None? then -1 else highest.value) + 1;
      assert rows != map[] ==> exists id :: id in rows.Keys;
    }

    /** SELECT ... ORDER BY position, id */
    method LoadProviders() returns (order: seq<int>)
      ensures IsOrder(order, rows)
    {
      order := [];
      var rest := rows.Keys;
      while rest != {}
        invariant rest <= rows.Keys
        invariant forall i | 0 <= i < |order| :: order[i] in rows && order[i] !in rest
        invariant forall id | id in rows && id !in rest :: id in order
        invariant forall i, j | 0 <= i < j < |order| :: Before(rows, order[i], order[j])
        invariant forall i, id | 0 <= i < |order| && id in rest :: Before(rows, order[i], id)
        decreases |rest|
      {
        var least := Least(rest);
        order := order + [least];
        rest := rest - {least};
      }
    }

    method Least(ids: set<int>) returns (least: int)
      requires ids != {} && ids <= rows.Keys
      ensures least in ids && forall id | id in ids && id != least :: Before(rows, least, id)
    {
      ghost var some := Member(ids);
      least :| least in ids;
      var rest := ids - {least};
      while rest != {}
        invariant rest <= ids && least in ids && least !in rest
        invariant forall id | id in ids && id != least && id !in rest :: Before(rows, least, id)
        decreases |rest|
      {
        ghost var some := Member(rest);
        var id :| id in rest;
        if Before(rows, id, least) {
          least := id;
        }
        rest := rest - {id};
      }
    }

    /** A taken name is refused by the unique index and leaves the table alone. */
    method InsertProvider(name: string, kind: string, config: string) returns (id: Option<int>)
      requires Valid()
      modifies this
      ensures Valid()
      ensures id.None? <==> exists k | k in old(rows) :: old(rows)[k].name == name
      ensures id.None? ==> rows == old(rows)
      ensures id.Some? ==> id.value !in old(rows) && exists position | IsNextPosition(old(rows), position) ::
                rows == old(rows)[id.value := Provider(name, kind, true, position, config)]
    {
      if exists k | k in rows.Keys :: rows[k].name == name {
        return None;
      }
      var position := NextPosition();
      var row := nextId;
      rows := rows[row := Provider(name, kind, true, position, config)];
      nextId := nextId + 1;
      return Some(row);
    }

    method DeleteProvider(id: int) returns (changed: bool)
      requires Valid()
      modifies this
      ensures Valid()
      ensures changed == (id in old(rows)) && rows == old(rows) - {id}
    {
      changed := id in rows;
      rows := rows - {id};
    }

    method MoveProvider(id: int, direction: Direction) returns (found: Option<Provider>)
      requires Valid()
      modifies this
      ensures Valid()
      ensures exists order | IsOrder(order, old(rows)) :: rows == Moved(old(rows), order, id, direction)
      ensures found == if id in old(rows) then Some(rows[id]) else None
    {
      hide DistinctPositions, IndexOf, Before;
      var order := LoadProviders();
      assert IsOrder(order, rows);
      var idx := IndexOf(order, id);
      if idx == |order| {
        return None;
      }
      var neighbour := Neighbour(idx, |order|, direction);
      if neighbour == None {
        return Some(rows[id]);
      }
      var other := order[neighbour.value];
      var mine, theirs := rows[id].position, rows[other].position;
      rows := rows[id := rows[id].(position := theirs)];
      rows := rows[other := rows[other].(position := mine)];
      NeighbourDiffers(order, old(rows), idx, neighbour.value);
      assert rows == Swap(old(rows), id, other);
      SwapKeepsDistinct(old(rows), id, other);
      return Some(rows[id]);
    }
  }

  lemma NeighbourDiffers(order: seq<int>, t: Table, i: nat, j: nat)
    requires IsOrder(order, t) && i < |order| && j < |order| && i != j
    ensures order[i] != order[j]
  {
    if i < j {
      assert Before(t, order[i], order[j]);
    } else {
      assert Before(t, order[j], order[i]);
    }
  }

  // ---------------------------------------------------------------- what the changes do to the chain

  /** A new provider goes last. */
  lemma InsertGoesLast(order: seq<int>, t: Table, id: int, row: Provider)
    requires IsOrder(order, t) && id !in t && IsNextPosition(t, row.position)
    ensures IsOrder(order + [id], t[id := row])
    ensures DistinctPositions(t) ==> DistinctPositions(t[id := row])
  {
    var u, all := t[id := row], order + [id];
    forall k | k in u ensures k in all {
      if k != id { assert k in order; } else { assert all[|order|] == id; }
    }
    forall i, j | 0 <= i < j < |all| ensures Before(u, all[i], all[j]) {
      assert all[i] == order[i];
      if j < |order| { assert Before(t, order[i], order[j]); }
    }
  }

  lemma DeleteKeepsOrder(order: seq<int>, t: Table, k: nat)
    requires IsOrder(order, t) && k < |order|
    ensures IsOrder(order[..k] + order[k + 1..], t - {order[k]})
  {
    var rest, u := order[..k] + order[k + 1..], t - {order[k]};
    forall i | 0 <= i < |rest| ensures rest[i] in u {
      var j := if i < k then i else i + 1;
      assert rest[i] == order[j];
      NeighbourDiffers(order, t, j, k);
    }
    forall id | id in u ensures id in rest {
      assert id in order;
      var j :| 0 <= j < |order| && order[j] == id;
      assert rest[if j < k then j else j - 1] == id;
    }
    forall i, j | 0 <= i < j < |rest| ensures Before(u, rest[i], rest[j]) {
      assert Before(t, order[if i < k then i else i + 1], order[if j < k then j else j + 1]);
    }
  }

  function Transposed(order: seq<int>, i: nat, j: nat): seq<int>
    requires i < |order| && j < |order|
  {
    order[i := order[j]][j := order[i]]
  }

  lemma SwapKeepsDistinct(t: Table, a: int, b: int)
    requires a in t && b in t && a != b && DistinctPositions(t)
    ensures DistinctPositions(Swap(t, a, b))
  {
  }

  /** With distinct positions, trading the positions of two neighbours transposes them and nothing else. */
  lemma SwapTransposes(order: seq<int>, t: Table, i: nat)
    requires IsOrder(order, t) && DistinctPositions(t) && i + 1 < |order|
    ensures IsOrder(Transposed(order, i, i + 1), Swap(t, order[i], order[i + 1]))
  {
    var a, b := order[i], order[i + 1];
    var u, all := Swap(t, a, b), Transposed(order, i, i + 1);
    assert Before(t, a, b);
    assert u.Keys == t.Keys;
    forall k | 0 <= k < |all| ensures all[k] in u {
      assert all[k] == order[if k == i then i + 1 else if k == i + 1 then i else k];
    }
    forall id | id in u ensures id in all {
      assert id in order;
      var k :| 0 <= k < |order| && order[k] == id;
      assert all[if k == i then i + 1 else if k == i + 1 then i else k] == id;
    }
    forall j, k | 0 <= j < k < |all| ensures Before(u, all[j], all[k]) {
      TransposedBefore(order, t, i, j, k);
    }
  }

  lemma TransposedBefore(order: seq<int>, t: Table, i: nat, j: nat, k: nat)
    requires IsOrder(order, t) && DistinctPositions(t) && i + 1 < |order| && j < k < |order|
    ensures var u, all := Swap(t, order[i], order[i + 1]), Transposed(order, i, i + 1);
            all[j] in u && all[k] in u && Before(u, all[j], all[k])
  {
    var u := Swap(t, order[i], order[i + 1]);
    NeighbourDiffers(order, t, i, i + 1);
    Sorted(order, t, j, k);
    Sorted(order, t, i, i + 1);
    if j != i && j != i + 1 {
      NeighbourDiffers(order, t, j, i);
      NeighbourDiffers(order, t, j, i + 1);
    }
    if k != i && k != i + 1 {
      NeighbourDiffers(order, t, k, i);
      NeighbourDiffers(order, t, k, i + 1);
    }
  }

  /** With distinct positions, positions rise strictly along the chain. */
  lemma Sorted(order: seq<int>, t: Table, j: nat, k: nat)
    requires IsOrder(order, t) && DistinctPositions(t) && j < k < |order|
    ensures order[j] in t && order[k] in t && t[order[j]].position < t[order[k]].position
  {
    assert Before(t, order[j], order[k]);
  }

  lemma SwapSymmetric(t: Table, a: int, b: int)
    requires a in t && b in t
    ensures Swap(t, a, b) == Swap(t, b, a)
  {
  }

  lemma IndexInOrder(order: seq<int>, t: Table, k: nat)
    requires IsOrder(order, t) && k < |order|
    ensures IndexOf(order, order[k]) == k
  {
    forall i | 0 <= i < k ensures order[i] != order[k] {
      NeighbourDiffers(order, t, i, k);
    }
    IndexOfUnique(order, order[k], k);
  }

  /**
   A move is one transposition of neighbours, or nothing at an end or for an unknown id; it keeps
   the positions distinct.
   */
  lemma MoveExact(order: seq<int>, t: Table, id: int, direction: Direction)
    requires IsOrder(order, t) && DistinctPositions(t)
    ensures var u, k := Moved(t, order, id, direction), IndexOf(order, id);
            && DistinctPositions(u)
            && (id !in t ==> u == t && IsOrder(order, u))
            && (id in t ==> k < |order|)
            && (id in t ==>
                  match Neighbour(k, |order|, direction)
                  case None => u == t && IsOrder(order, u)
                  case Some(n) => IsOrder(Transposed(order, k, n), u))
  {
    hide IndexOf;
    var k := IndexOf(order, id);
    assert id in order <==> id in t;
    if id in t {
      match Neighbour(k, |order|, direction) {
        case None =>
        case Some(n) =>
          NeighbourDiffers(order, t, k, n);
          SwapKeepsDistinct(t, id, order[n]);
          var i := if n < k then n else k;
          SwapTransposes(order, t, i);
          SwapSymmetric(t, order[i], order[i + 1]);
          assert Transposed(order, k, n) == Transposed(order, i, i + 1);
      }
    }
  }

  /** An effective move up is undone by a move down: every row is as before. */
  lemma UpThenDown(order: seq<int>, t: Table, k: nat)
    requires IsOrder(order, t) && DistinctPositions(t) && 0 < k < |order|
    ensures var id := order[k];
            var u := Moved(t, order, id, Up);
            var order' := Transposed(order, k, k - 1);
            IsOrder(order', u) && Moved(u, order', id, Down) == t
  {
    hide DistinctPositions, IndexOf, Before;
    var id, above := order[k], order[k - 1];
    IndexInOrder(order, t, k);
    MoveExact(order, t, id, Up);
    var u, order' := Moved(t, order, id, Up), Transposed(order, k, k - 1);
    IndexInOrder(order', u, k - 1);
    assert order'[k - 1] == id && order'[k] == above;
    NeighbourDiffers(order, t, k, k - 1);
    assert Swap(Swap(t, id, above), id, above) == t;
  }

  // ---------------------------------------------------------------- runs

  datatype Op = Insert(id: int, row: Provider) | Delete(id: int) | Move(id: int, direction: Direction)

  /** One change of the table, as the methods make it. */
  ghost predicate Step(t: Table, op: Op, u: Table) {
    match op
    case Insert(id, row) => id !in t && IsNextPosition(t, row.position) && u == t[id := row]
    case Delete(id) => u == t - {id}
    case Move(id, direction) => exists order | IsOrder(order, t) :: u == Moved(t, order, id, direction)
  }

  /** The tables of a run, one per change, from the empty one on. */
  ghost predicate IsRun(tables: seq<Table>, ops: seq<Op>) {
    && |tables| == |ops| + 1 && tables[0] == map[]
    && forall k | 0 <= k < |ops| :: Step(tables[k], ops[k], tables[k + 1])
  }

  lemma StepKeepsDistinct(t: Table, op: Op, u: Table)
    requires DistinctPositions(t) && Step(t, op, u)
    ensures DistinctPositions(u)
  {
    match op {
      case Insert(id, row) =>
      case Delete(id) =>
      case Move(id, direction) =>
        var order :| IsOrder(order, t) && u == Moved(t, order, id, direction);
        MoveExact(order, t, id, direction);
    }
  }

  /** In every run of inserts, deletes and moves from the empty table, positions stay distinct. */
  lemma {:induction false} RunKeepsDistinct(tables: seq<Table>, ops: seq<Op>, k: nat)
    requires IsRun(tables, ops) && k <= |ops|
    ensures DistinctPositions(tables[k])
    decreases k
  {
    if k > 0 {
      RunKeepsDistinct(tables, ops, k - 1);
      assert Step(tables[k - 1], ops[k - 1], tables[k - 1 + 1]);
      StepKeepsDistinct(tables[k - 1], ops[k - 1], tables[k]);
    }
  }
}
