/** The deque over one padded buffer (lib/deque.h), which queues the crawler's targets. */
module Deque {

  const INIT_ALLOC_SIZE: nat := 9

  datatype Op<T> = PushBack(value: T) | PushFront(value: T) | PopBack | PopFront

  // ---------------------------------------------------------------- what it refines

  predicate Defined<T>(s: seq<T>, op: Op<T>) {
    op.PushBack? || op.PushFront? || s != []
  }

  function Applied<T>(s: seq<T>, op: Op<T>): seq<T>
    requires Defined(s, op)
  {
    match op
    case PushBack(value) => s + [value]
    case PushFront(value) => [value] + s
    case PopBack => s[..|s| - 1]
    case PopFront => s[1..]
  }

  // ---------------------------------------------------------------- where it sits in its buffer

  /** Both bounds are inclusive. */
  datatype Shape = Shape(capacity: nat, size: nat, left: nat, right: nat)

  /** An empty deque keeps left and right together on a cell of the buffer. */
  predicate Sound(h: Shape) {
    h.left <= h.right < h.capacity && if h.size == 0 then h.left == h.right else h.size == h.right - h.left + 1
  }

  const INITIAL: Shape := Shape(INIT_ALLOC_SIZE, 0, (INIT_ALLOC_SIZE - 1) / 2, (INIT_ALLOC_SIZE - 1) / 2)

  function Padding(size: nat): nat {
    size / 2 + 1
  }

  lemma PaddingIs(size: nat)
    ensures Padding(size) == size / 2 + 1
  {
  }

  function Reallocated(h: Shape): Shape
    requires h.size > 0
  {
    var padding := Padding(h.size);
    Shape(2 * padding + h.size, h.size, padding, padding + h.size - 1)
  }

  /** A push onto a deque that is not empty reallocates when its end touches the buffer's. */
  predicate Reallocates<T>(h: Shape, op: Op<T>) {
    h.size > 0 && ((op.PushBack? && h.right == h.capacity - 1) || (op.PushFront? && h.left == 0))
  }

  predicate Playable<T>(h: Shape, op: Op<T>) {
    op.PushBack? || op.PushFront? || h.size > 0
  }

  function Moved<T>(h: Shape, op: Op<T>): (r: Shape)
    requires Sound(h) && Playable(h, op)
    ensures Sound(r)
    ensures r.size == if op.PushBack? || op.PushFront? then h.size + 1 else h.size - 1
  {
    var g := if Reallocates(h, op) then Reallocated(h) else h;
    match op
    case PushBack(_) => if h.size == 0 then h.(size := 1) else g.(size := h.size + 1, right := g.right + 1)
    case PushFront(_) => if h.size == 0 then h.(size := 1) else g.(size := h.size + 1, left := g.left - 1)
    case PopBack => if h.left == h.right then h.(size := 0) else h.(size := h.size - 1, right := h.right - 1)
    case PopFront => if h.left == h.right then h.(size := 0) else h.(size := h.size - 1, left := h.left + 1)
  }

  lemma BackMoves<T>(h: Shape, value: T)
    requires Sound(h)
    ensures Moved(h, Op.PushBack(value)) ==
              if h.size == 0 then h.(size := 1)
              else
                var g := if h.right == h.capacity - 1 then Reallocated(h) else h;
                Shape(g.capacity, h.size + 1, g.left, g.right + 1)
  {
  }

  lemma FrontMoves<T>(h: Shape, value: T)
    requires Sound(h)
    ensures Moved(h, Op.PushFront(value)) ==
              if h.size == 0 then h.(size := 1)
              else
                var g := if h.left == 0 then Reallocated(h) else h;
                Shape(g.capacity, h.size + 1, g.left - 1, g.right)
  {
  }

  // ---------------------------------------------------------------- what a run costs

  predicate PlayableRun<T>(h: Shape, ops: seq<Op<T>>)
    requires Sound(h)
    decreases |ops|
  {
    ops == [] || (Playable(h, ops[0]) && PlayableRun(Moved(h, ops[0]), ops[1..]))
  }

  /** The elements realloc_ moves over the run. */
  function Cost<T>(h: Shape, ops: seq<Op<T>>): nat
    requires Sound(h) && PlayableRun(h, ops)
    decreases |ops|
  {
    if ops == [] then 0
    else (if Reallocates(h, ops[0]) then h.size else 0) + Cost(Moved(h, ops[0]), ops[1..])
  }

  function Pushes<T>(ops: seq<Op<T>>): nat {
    if ops == [] then 0 else (if ops[0].PushBack? || ops[0].PushFront? then 1 else 0) + Pushes(ops[1..])
  }

  /**
    `since` pushes after the buffer was laid out with this padding at both ends around
    `base` elements, neither end has come closer to its edge, nor the deque grown, by more.
  */
  ghost predicate Spread(h: Shape, base: nat, padding: nat, since: nat) {
    && Sound(h) && base < 2 * padding
    && h.size <= base + since && padding <= h.left + since && h.right + 1 + padding <= h.capacity + since
  }

  lemma {:induction false} CostFrom<T>(h: Shape, ops: seq<Op<T>>, base: nat, padding: nat, since: nat)
    requires Spread(h, base, padding, since) && PlayableRun(h, ops)
    ensures Cost(h, ops) <= 3 * (since + Pushes(ops))
    decreases |ops|
  {
    if ops != [] {
      var next := Moved(h, ops[0]);
      if Reallocates(h, ops[0]) {
        CostFrom(next, ops[1..], h.size, Padding(h.size), 1);
      } else if ops[0].PushBack? || ops[0].PushFront? {
        CostFrom(next, ops[1..], base, padding, since + 1);
      } else {
        CostFrom(next, ops[1..], base, padding, since);
      }
    }
  }

  /** Over any run from a new deque, growing moves at most three elements a push. */
  lemma GrowthIsAmortised<T>(ops: seq<Op<T>>)
    requires PlayableRun(INITIAL, ops)
    ensures Cost(INITIAL, ops) <= 3 * Pushes(ops)
  {
    CostFrom(INITIAL, ops, 0, (INIT_ALLOC_SIZE - 1) / 2, 0);
  }

  // ---------------------------------------------------------------- the class

  lemma FewCells<T(0)>(d: Deque<T>)
    requires d.Valid()
    ensures d.size == 0 ==> d.Contents() == []
    ensures d.size == 1 ==> d.Contents() == [d.allocRegion[d.left]]
  {
  }

  lemma CellsOf<T(0)>(d: Deque<T>)
    requires d.Valid() && d.size > 0
    ensures forall i | 0 <= i < |d.Contents()| :: d.Contents()[i] == d.allocRegion[d.left + i]
  {
  }

  /** One more cell on the left. */
  lemma FrontPushed<T(0)>(d: Deque<T>, was: seq<T>, value: T)
    requires d.Valid() && d.size == |was| + 1 && d.allocRegion[d.left] == value
    requires forall i | 0 <= i < |was| :: d.allocRegion[d.left + 1 + i] == was[i]
    ensures d.Contents() == [value] + was
  {
  }

  /** One more cell on the right. */
  lemma BackPushed<T(0)>(d: Deque<T>, was: seq<T>, value: T)
    requires d.Valid() && d.size == |was| + 1 && d.allocRegion[d.right] == value
    requires forall i | 0 <= i < |was| :: d.allocRegion[d.left + i] == was[i]
    ensures d.Contents() == was + [value]
  {
  }

  lemma OneMoreCopied<T>(region: array<T>, padding: nat, into: nat, from: array<T>, left: nat, ptr: nat)
    requires padding <= into < region.Length && left <= ptr < from.Length
    requires region[padding..into] == from[left..ptr] && region[into] == from[ptr]
    ensures region[padding..into + 1] == from[left..ptr + 1]
  {
    assert region[padding..into + 1] == region[padding..into] + [region[into]];
    assert from[left..ptr + 1] == from[left..ptr] + [from[ptr]];
  }

  class Deque<T(0)> {
    var allocRegion: array<T>
    var size: nat
    var left: nat
    var right: nat

    ghost function ShapeOf(): Shape
      reads this
    {
      Shape(allocRegion.Length, size, left, right)
    }

    ghost predicate Valid()
      reads this
    {
      Sound(ShapeOf())
    }

    ghost function Contents(): (s: seq<T>)
      requires Valid()
      reads this, allocRegion
      ensures |s| == size
    {
      if size == 0 then [] else allocRegion[left..right + 1]
    }

    constructor ()
      ensures Valid() && fresh(allocRegion) && ShapeOf() == INITIAL && Contents() == []
    {
      allocRegion := new T[INIT_ALLOC_SIZE];
      size := 0;
      left := (INIT_ALLOC_SIZE - 1) / 2;
      right := (INIT_ALLOC_SIZE - 1) / 2;
    }

    method PushBack(value: T)
      requires Valid()
      modifies this, allocRegion
      ensures Valid() && (allocRegion == old(allocRegion) || fresh(allocRegion))
      ensures Contents() == Applied(old(Contents()), Op.PushBack(value))
      ensures ShapeOf() == Moved(old(ShapeOf()), Op.PushBack(value))
    {
      hide Moved, Contents;
      BackMoves(ShapeOf(), value);
      FewCells(this);
      if size == 0 {
        allocRegion[left] := value;
        size := 1;
        FewCells(this);
        return;
      }
      if right == allocRegion.Length - 1 { Realloc(); }
      ghost var was := Contents();
      CellsOf(this);
      right := right + 1;
      size := size + 1;
      allocRegion[right] := value;
      BackPushed(this, was, value);
    }

    method PushFront(value: T)
      requires Valid()
      modifies this, allocRegion
      ensures Valid() && (allocRegion == old(allocRegion) || fresh(allocRegion))
      ensures Contents() == Applied(old(Contents()), Op.PushFront(value))
      ensures ShapeOf() == Moved(old(ShapeOf()), Op.PushFront(value))
    {
      hide Moved, Contents;
      FrontMoves(ShapeOf(), value);
      FewCells(this);
      if size == 0 {
        allocRegion[left] := value;
        size := 1;
        FewCells(this);
        return;
      }
      if left == 0 { Realloc(); }
      ghost var was := Contents();
      CellsOf(this);
      left := left - 1;
      size := size + 1;
      allocRegion[left] := value;
      FrontPushed(this, was, value);
    }

    method PopBack()
      requires Valid() && Contents() != []
      modifies this
      ensures Valid() && allocRegion == old(allocRegion)
      ensures Contents() == Applied(old(Contents()), Op<T>.PopBack)
      ensures ShapeOf() == Moved(old(ShapeOf()), Op<T>.PopBack)
    {
      if left == right {
        size := size - 1;
        return;
      }
      right := right - 1;
      size := size - 1;
    }

    method PopFront()
      requires Valid() && Contents() != []
      modifies this
      ensures Valid() && allocRegion == old(allocRegion)
      ensures Contents() == Applied(old(Contents()), Op<T>.PopFront)
      ensures ShapeOf() == Moved(old(ShapeOf()), Op<T>.PopFront)
    {
      if left == right {
        size := size - 1;
        return;
      }
      left := left + 1;
      size := size - 1;
    }

    method Front() returns (value: T)
      requires Valid() && Contents() != []
      ensures value == Contents()[0]
    {
      value := allocRegion[left];
    }

    method Back() returns (value: T)
      requires Valid() && Contents() != []
      ensures value == Contents()[|Contents()| - 1]
    {
      value := allocRegion[right];
    }

    method Empty() returns (r: bool)
      requires Valid()
      ensures r == (Contents() == [])
    {
      r := size == 0;
    }

    method At(i: nat) returns (value: T)
      requires Valid() && i < |Contents()|
      ensures value == Contents()[i]
    {
      value := allocRegion[left + i];
    }

    method Realloc()
      requires Valid() && size > 0
      modifies this
      ensures Valid() && fresh(allocRegion)
      ensures Contents() == old(Contents()) && ShapeOf() == Reallocated(old(ShapeOf()))
      ensures left == size / 2 + 1 && right + 1 == left + size && allocRegion.Length == right + 1 + left
    {
      hide Padding;
      var padding := Padding(size);
      ghost var was := Contents();
      var region := new T[2 * padding + size];
      var into := padding;
      var ptr := left;
      while ptr <= right
        invariant unchanged(this) && fresh(region)
        invariant left <= ptr <= right + 1 && into == padding + ptr - left
        invariant region[padding..into] == allocRegion[left..ptr]
      {
        region[into] := allocRegion[ptr];
        OneMoreCopied(region, padding, into, allocRegion, left, ptr);
        ptr := ptr + 1;
        into := into + 1;
      }
      assert into == padding + size && region[padding..into] == was;
      allocRegion := region;
      left := padding;
      right := left + size - 1;
      PaddingIs(size);
    }
  }
}
