/** The data side of the instruction-block editor: rectangles, the buttons
    that spawn blocks, the blocks themselves, and the model that owns the
    instruction queue and runs it. */
module GuiModel {
  import opened Seqs

  datatype Option<T> = None | Some(value: T)

  /** `pygame.Rect`: integer position and size. */
  datatype Rect = Rect(x: int, y: int, w: int, h: int) {

    /** `collidepoint`: half-open on both axes, so a rect of zero width or
        height holds no point and its right and bottom edges are outside. */
    predicate Contains(px: int, py: int)
      ensures Contains(px, py) ==> 0 < w && 0 < h
      ensures px == x + w || py == y + h ==> !Contains(px, py)
    {
      x <= px < x + w && y <= py < y + h
    }

    /** The rect moved so that its centre is at (`px`, `py`), the half-size
        rounded down as Python's `//` rounds (for the positive divisor 2,
        Dafny's `/` rounds the same way). The size does not change, and a
        rect of positive size ends up under the point. */
    function CentredOn(px: int, py: int): (r: Rect)
      ensures r.w == w && r.h == h
      ensures w > 0 && h > 0 ==> r.Contains(px, py)
    {
      Rect(px - w / 2, py - h / 2, w, h)
    }
  }

  /** A block's duration: the number a button gives it, until the text box
      replaces it with whatever text was typed. */
  datatype Duration = Number(n: int) | Text(s: string)

  /** What one run prints for one block. */
  datatype Emission = Emission(direction: int, motors: seq<int>, duration: Duration)

  /** A button that spawns a block. `motors` are positions in the robot's
      motor list, not motor numbers. */
  datatype MoveButton = MoveButton(motors: seq<int>, direction: int, duration: Duration, rect: Rect, name: string)

  /** The robot's motor list. */
  const RobotMotors: seq<int> := [1, 2, 3]

  /** Where a Python index lands in a list of length `n`: negative indices
      count from the end; None is Python's IndexError. */
  function PyIndex(n: nat, i: int): (r: Option<nat>)
    ensures r.Some? <==> 0 <= n + i && i < n
    ensures r.Some? ==> r.value < n && (r.value == i || r.value == n + i)
  {
    if 0 <= i < n then Some(i) else if 0 <= n + i && i < 0 then Some(n + i) else None
  }

  /** `[robot.motors[i] for i in indices]`; None when an index is out of range. */
  function MotorLookup(table: seq<int>, indices: seq<int>): (r: Option<seq<int>>)
    ensures r.Some? <==> forall k :: 0 <= k < |indices| ==> PyIndex(|table|, indices[k]).Some?
    ensures r.Some? ==> |r.value| == |indices|
    ensures r.Some? ==> forall k :: 0 <= k < |indices| ==> r.value[k] == table[PyIndex(|table|, indices[k]).value]
  {
    if indices == [] then Some([])
    else
      match (PyIndex(|table|, indices[0]), MotorLookup(table, indices[1..]))
      case (Some(p), Some(rest)) => Some([table[p]] + rest)
      case _ =>
        assert forall k :: 0 < k < |indices| ==> indices[k] == indices[1..][k - 1];
        None
  }

  /** An instruction block. */
  class Move {
    const motors: seq<int>
    const direction: int
    var duration: Duration
    var rect: Rect
    var isDragging: bool
    const name: string
    var textVisible: bool

    /** Looks the button's motor positions up in the robot's list, copies the
        rest, and starts out dragged with its text box hidden. */
    constructor (robot: seq<int>, indices: seq<int>, direction: int, duration: Duration, rect: Rect, name: string)
      requires MotorLookup(robot, indices).Some?
      ensures motors == MotorLookup(robot, indices).value
      ensures this.direction == direction && this.duration == duration
      ensures this.rect == rect && this.name == name
      ensures isDragging && !textVisible
    {
      motors := MotorLookup(robot, indices).value;
      this.direction := direction;
      this.duration := duration;
      this.rect := rect;
      isDragging := true;
      this.name := name;
      textVisible := false;
    }

    /** The fields a frame of the controller may change, read together. */
    function State(): BlockState
      reads this
    {
      BlockState(duration, rect, isDragging, textVisible)
    }
  }

  datatype BlockState = BlockState(duration: Duration, rect: Rect, isDragging: bool, textVisible: bool)

  /** A Python list of blocks. It is an object of its own because the model
      and the controller may hold references to one and the same list. */
  class MoveList {
    var items: seq<Move>

    constructor (items: seq<Move>)
      ensures this.items == items
    {
      this.items := items;
    }
  }

  /** A freshly created block made from `btn` for `robot`. */
  ghost predicate IsNewBlock(m: Move, btn: MoveButton, robot: seq<int>)
    reads m
  {
    MotorLookup(robot, btn.motors) == Some(m.motors) &&
    m.direction == btn.direction && m.duration == btn.duration &&
    m.rect == btn.rect && m.name == btn.name &&
    m.isDragging && !m.textVisible
  }

  /** What a run prints for block `m`. */
  function EmissionOf(m: Move): Emission
    reads m
  {
    Emission(m.direction, m.motors, m.duration)
  }

  // ---------------------------------------------------------------------------
  // Run order: sorted(instructions, key=lambda instr: instr.rect.x)
  // ---------------------------------------------------------------------------

  /** Each block paired with its sort key, as `sorted` computes keys once. */
  function Keyed(items: seq<Move>): (r: seq<(int, Move)>)
    reads items
    ensures |r| == |items|
    ensures forall k :: 0 <= k < |items| ==> r[k] == (items[k].rect.x, items[k])
  {
    if items == [] then [] else [(items[0].rect.x, items[0])] + Keyed(items[1..])
  }

  /** The run order: a stable sort by left edge. */
  function SortByX(items: seq<Move>): seq<Move>
    reads items
  {
    Values(SortByKey(Keyed(items)))
  }

  /** The blocks whose left edge is at `x`, in their order. */
  function AtX(items: seq<Move>, x: int): seq<Move>
    reads items
  {
    if items == [] then []
    else (if items[0].rect.x == x then [items[0]] else []) + AtX(items[1..], x)
  }

  ghost predicate SortedByX(items: seq<Move>)
    reads items
  {
    forall i, j :: 0 <= i < j < |items| ==> items[i].rect.x <= items[j].rect.x
  }

  lemma {:induction false} KeyedAtX(items: seq<Move>, x: int)
    ensures WithKey(Keyed(items), x) == Keyed(AtX(items, x))
  {
    if items != [] {
      KeyedAtX(items[1..], x);
      assert Keyed(items)[1..] == Keyed(items[1..]);
      var head := if items[0].rect.x == x then [items[0]] else [];
      KeyedAppend(head, AtX(items[1..], x));
    }
  }

  lemma {:induction false} KeyedAppend(a: seq<Move>, b: seq<Move>)
    ensures Keyed(a + b) == Keyed(a) + Keyed(b)
  {
  }

  /** Pairs whose key is their block's left edge come back from `Values` as
      they went in. */
  lemma {:induction false} KeyedValues(ps: seq<(int, Move)>)
    requires forall k :: 0 <= k < |ps| ==> ps[k].0 == ps[k].1.rect.x
    ensures Keyed(Values(ps)) == ps
  {
  }

  lemma {:induction false} SortedKeyed(items: seq<Move>)
    ensures SortedByKey(Keyed(items)) <==> SortedByX(items)
  {
  }

  /** The sorted pairs still carry their own block's left edge as key. */
  lemma SortedPairsConsistent(items: seq<Move>)
    ensures forall k :: 0 <= k < |SortByKey(Keyed(items))| ==>
              SortByKey(Keyed(items))[k].0 == SortByKey(Keyed(items))[k].1.rect.x
  {
    var ps, qs := Keyed(items), SortByKey(Keyed(items));
    forall k | 0 <= k < |qs| ensures qs[k].0 == qs[k].1.rect.x {
      assert qs[k] in multiset(qs);
      assert qs[k] in multiset(ps);
      var j :| 0 <= j < |ps| && ps[j] == qs[k];
    }
  }

  /** The run order is a rearrangement of the queue, ordered by left edge,
      and keeps the queue's order among blocks with one left edge. */
  lemma {:induction false} SortByXSpec(items: seq<Move>)
    ensures multiset(SortByX(items)) == multiset(items)
    ensures SortedByX(SortByX(items))
    ensures forall x :: AtX(SortByX(items), x) == AtX(items, x)
  {
    var ps := Keyed(items);
    var qs := SortByKey(ps);
    var r := SortByX(items);
    SortedPairsConsistent(items);
    KeyedValues(qs);
    assert Keyed(r) == qs;
    SortByKeySorted(ps);
    SortedKeyed(r);
    forall x ensures AtX(r, x) == AtX(items, x) {
      SortByKeyStable(ps, x);
      KeyedAtX(items, x);
      KeyedAtX(r, x);
      KeyedInjective(AtX(r, x), AtX(items, x));
    }
    forall m ensures multiset(r)[m] == multiset(items)[m] {
      AtXCount(r, m.rect.x, m);
      AtXCount(items, m.rect.x, m);
    }
  }

  lemma {:induction false} ValuesKeyed(items: seq<Move>)
    ensures Values(Keyed(items)) == items
  {
  }

  lemma {:induction false} KeyedInjective(a: seq<Move>, b: seq<Move>)
    requires Keyed(a) == Keyed(b)
    ensures a == b
  {
    ValuesKeyed(a);
    ValuesKeyed(b);
  }

  /** Counting a block in the blocks at one left edge counts it in the list. */
  lemma {:induction false} AtXCount(items: seq<Move>, x: int, m: Move)
    ensures multiset(AtX(items, x))[m] == if m.rect.x == x then multiset(items)[m] else 0
  {
    if items != [] {
      AtXCount(items[1..], x, m);
      assert items == [items[0]] + items[1..];
      var head := if items[0].rect.x == x then [items[0]] else [];
      assert multiset(AtX(items, x)) == multiset(head) + multiset(AtX(items[1..], x));
    }
  }

  /** Whatever algorithm computes it, a stable sort by left edge yields
      exactly `SortByX`: the run order is determined by the queue. */
  lemma {:induction false} SortByXUnique(items: seq<Move>, r: seq<Move>)
    requires SortedByX(r)
    requires forall x :: AtX(r, x) == AtX(items, x)
    ensures r == SortByX(items)
  {
    SortedKeyed(r);
    forall x ensures WithKey(Keyed(r), x) == WithKey(Keyed(items), x) {
      KeyedAtX(r, x);
      KeyedAtX(items, x);
    }
    SortByKeyUnique(Keyed(items), Keyed(r));
    ValuesKeyed(r);
  }

  /** The print loop of a run: one line per block, in list order. */
  method Emit(items: seq<Move>) returns (out: seq<Emission>)
    ensures |out| == |items|
    ensures forall k :: 0 <= k < |items| ==> out[k] == EmissionOf(items[k])
  {
    out := [];
    for k := 0 to |items|
      invariant |out| == k
      invariant forall j :: 0 <= j < k ==> out[j] == EmissionOf(items[j])
    {
      out := out + [EmissionOf(items[k])];
    }
  }

  // ---------------------------------------------------------------------------
  // The model
  // ---------------------------------------------------------------------------

  /** The layout and the instruction queue. The layout never changes; the
      queue is a list object that `Execute` replaces by a new one. */
  class Model {
    const robot: seq<int> := RobotMotors
    const dock: Rect := Rect(120, 100, 20, 60)
    const trash: Rect := Rect(10, 750, 40, 40)
    const runBtn: Rect := Rect(700, 750, 80, 40)
    const btns: seq<MoveButton>
    var instructions: MoveList

    /** No block is queued twice, and every button names motors the robot
        has. */
    ghost predicate Valid()
      reads this, instructions
    {
      Distinct(instructions.items) &&
      forall b :: 0 <= b < |btns| ==> MotorLookup(robot, btns[b].motors).Some?
    }

    /** The four move buttons down the left edge and an empty queue. */
    constructor ()
      ensures Valid() && fresh(instructions) && instructions.items == []
      ensures btns == [
                MoveButton([0, 1], 0, Number(1), Rect(10, 10, 60, 60), "Straight"),
                MoveButton([0, 1], 1, Number(1), Rect(10, 80, 60, 60), "R turn"),
                MoveButton([0, 1], -1, Number(1), Rect(10, 150, 60, 60), "L turn"),
                MoveButton([2], 1, Number(1), Rect(10, 220, 60, 60), "Arm")
              ]
    {
      btns := [
        MoveButton([0, 1], 0, Number(1), Rect(10, 10, 60, 60), "Straight"),
        MoveButton([0, 1], 1, Number(1), Rect(10, 80, 60, 60), "R turn"),
        MoveButton([0, 1], -1, Number(1), Rect(10, 150, 60, 60), "L turn"),
        MoveButton([2], 1, Number(1), Rect(10, 220, 60, 60), "Arm")
      ];
      instructions := new MoveList([]);
    }

    /** Run: rebinds the queue to a new, sorted list and prints it in that
        order. Whoever still holds the old list keeps the old list. */
    method Execute() returns (out: seq<Emission>)
      requires Valid()
      modifies this`instructions
      ensures Valid() && fresh(instructions)
      ensures instructions.items == SortByX(old(instructions.items))
      ensures |out| == |instructions.items|
      ensures forall k :: 0 <= k < |out| ==> out[k] == EmissionOf(instructions.items[k])
    {
      ghost var keys := Keyed(instructions.items);
      var sorted := SortByX(instructions.items);
      SortByXDistinct(instructions.items);
      instructions := new MoveList(sorted);
      out := Emit(instructions.items);
      assert Keyed(old(instructions.items)) == keys;
    }
  }

  lemma SortByXDistinct(items: seq<Move>)
    requires Distinct(items)
    ensures Distinct(SortByX(items))
  {
    SortByXSpec(items);
    DistinctPermutation(items, SortByX(items));
  }

  /** A rearrangement of a list without repeats has none either. */
  lemma DistinctPermutation<T>(s: seq<T>, r: seq<T>)
    requires Distinct(s) && multiset(r) == multiset(s)
    ensures Distinct(r)
  {
    forall i, j | 0 <= i < j < |r| ensures r[i] != r[j] {
      CountAtMostOne(s, r[i]);
      TwiceCounted(r, i, j);
    }
  }

  lemma TwiceCounted<T>(r: seq<T>, i: nat, j: nat)
    requires i < j < |r|
    ensures r[i] == r[j] ==> multiset(r)[r[i]] >= 2
  {
    assert r == r[..i] + [r[i]] + r[i + 1..j] + [r[j]] + r[j + 1..];
  }

  lemma {:induction false} CountAtMostOne<T>(s: seq<T>, x: T)
    requires Distinct(s)
    ensures multiset(s)[x] <= 1
  {
    if s != [] {
      DistinctTail(s);
      CountAtMostOne(s[1..], x);
      assert s == [s[0]] + s[1..];
      if s[0] == x {
        assert x !in s[1..] by {
          forall k | 0 <= k < |s| - 1 ensures s[1..][k] != x { assert s[1..][k] == s[k + 1]; }
        }
      }
    }
  }

  /** `Move_button.create_object`: appends one new block made from `btn` to
      the model's current queue. */
  method CreateObject(btn: MoveButton, model: Model)
    requires model.Valid()
    requires MotorLookup(model.robot, btn.motors).Some?
    modifies model.instructions
    ensures model.Valid()
    ensures |model.instructions.items| == |old(model.instructions.items)| + 1
    ensures model.instructions.items[..|old(model.instructions.items)|] == old(model.instructions.items)
    ensures fresh(model.instructions.items[|old(model.instructions.items)|])
    ensures IsNewBlock(model.instructions.items[|old(model.instructions.items)|], btn, model.robot)
  {
    var m := new Move(model.robot, btn.motors, btn.direction, btn.duration, btn.rect, btn.name);
    model.instructions.items := model.instructions.items + [m];
  }
}
