/** The controller: mouse state, the per-frame pass over the instruction
    blocks (dragging, hover text, trash), and the press counter that lets one
    press of a button create one block or start one run. */
module GuiController {
  import opened Seqs
  import opened GuiModel

  /** The pygame event types the controller tells apart. */
  datatype EventType = MouseButtonDown | MouseButtonUp | OtherEvent

  /** `sum([int(el.is_dragging) for el in items])` */
  function CountDragging(items: seq<Move>): (n: nat)
    reads items
    ensures n <= |items|
    ensures n == 0 <==> forall k :: 0 <= k < |items| ==> !items[k].isDragging
  {
    if items == [] then 0
    else (if items[0].isDragging then 1 else 0) + CountDragging(items[1..])
  }

  /** The blocks a frame's trash check removes when it reaches them: those
      whose rect contains the trash's top-left corner, and none while the
      mouse is held. */
  ghost function Droppable(items: seq<Move>, trash: Rect, held: bool): set<Move>
    reads items
    decreases |items|
  {
    if held || items == [] then {}
    else (if items[0].rect.Contains(trash.x, trash.y) then {items[0]} else {}) + Droppable(items[1..], trash, held)
  }

  lemma {:induction false} DroppableIs(items: seq<Move>, trash: Rect, held: bool)
    ensures forall m :: m in Droppable(items, trash, held) <==> m in items && m.rect.Contains(trash.x, trash.y) && !held
  {
    if items != [] && !held {
      DroppableIs(items[1..], trash, held);
      assert items == [items[0]] + items[1..];
    }
  }

  lemma DroppableHas(items: seq<Move>, trash: Rect, held: bool)
    ensures forall k :: 0 <= k < |items| ==>
              (items[k] in Droppable(items, trash, held) <==> items[k].rect.Contains(trash.x, trash.y) && !held)
  {
    DroppableIs(items, trash, held);
  }

  /** Whether a block whose fields were `before` is dragging after its turn,
      when `count` blocks of the walked list were dragging as the turn began:
      the cursor is held over it and at most one block was dragging. */
  predicate Grabbed(before: BlockState, mx: int, my: int, held: bool, count: nat)
  {
    held && before.rect.Contains(mx, my) && count <= 1
  }

  /** What a frame's pass does to a block it reaches, whose fields were
      `before`, when `count` blocks of the walked list were dragging as its
      turn began: the duration stays, the text box shows exactly when the
      released cursor is over the block, the block is dragging afterwards
      exactly when the cursor is held over it and at most one block was
      dragging, and a dragged block is re-centred on the cursor while any
      other keeps its place. */
  predicate Reached(m: Move, before: BlockState, mx: int, my: int, held: bool, count: nat)
    reads m
  {
    m.duration == before.duration &&
    m.textVisible == (before.rect.Contains(mx, my) && !held) &&
    m.isDragging == Grabbed(before, mx, my, held, count) &&
    m.rect == (if m.isDragging then before.rect.CentredOn(mx, my) else before.rect)
  }

  /** The state of each block of `s`. */
  ghost function States(s: seq<Move>): (r: seq<BlockState>)
    reads s
    ensures |r| == |s| && forall k :: 0 <= k < |s| ==> r[k] == s[k].State()
  {
    if s == [] then [] else [s[0].State()] + States(s[1..])
  }

  /** Each block of `s` is reached from its state in `before`, with the
      count `counts` gives it, if the pass has visited it, and still in that
      state otherwise. */
  ghost predicate Marked(s: seq<Move>, before: seq<BlockState>, visited: seq<Move>, counts: seq<nat>,
                         mx: int, my: int, held: bool)
    reads s
  {
    |before| == |s| && |counts| == |s| &&
    forall q :: 0 <= q < |s| ==>
      if s[q] in visited then Reached(s[q], before[q], mx, my, held, counts[q]) else s[q].State() == before[q]
  }

  /** `after` is `before` with one new block made from `btn` at the end. */
  twostate predicate AppendedNewBlock(before: seq<Move>, new after: seq<Move>, btn: MoveButton, robot: seq<int>)
    reads after
  {
    |after| == |before| + 1 && after[..|before|] == before &&
    fresh(after[|before|]) && IsNewBlock(after[|before|], btn, robot)
  }

  // ---------------------------------------------------------------------------
  // The press counter
  // ---------------------------------------------------------------------------

  /** What a frame's button section does: nothing, create a block from button
      `button`, or run the queue. */
  datatype Action = Idle | Create(button: nat) | Run

  /** The counter after a frame and the action it allowed. */
  datatype Press = Press(holdTime: nat, action: Action)

  /** How many buttons lie under the point. */
  function Hits(btns: seq<MoveButton>, px: int, py: int): (n: nat)
    ensures n <= |btns|
    ensures n == 0 <==> forall b :: 0 <= b < |btns| ==> !btns[b].rect.Contains(px, py)
  {
    if btns == [] then 0
    else Hits(btns[..|btns| - 1], px, py) + (if btns[|btns| - 1].rect.Contains(px, py) then 1 else 0)
  }

  /** The first button under the point. */
  function FirstHit(btns: seq<MoveButton>, px: int, py: int): (b: nat)
    requires Hits(btns, px, py) > 0
    ensures b < |btns| && btns[b].rect.Contains(px, py)
    ensures forall c :: 0 <= c < b ==> !btns[c].rect.Contains(px, py)
  {
    if btns[0].rect.Contains(px, py) then 0
    else
      assert Hits(btns[1..], px, py) > 0 by {
        var c :| 0 <= c < |btns| && btns[c].rect.Contains(px, py);
        assert btns[1..][c - 1] == btns[c];
      }
      1 + FirstHit(btns[1..], px, py)
  }

  /** The first button under the point is the one under it with none before. */
  lemma {:induction false} FirstHitIs(btns: seq<MoveButton>, px: int, py: int, f: nat)
    requires f < |btns| && btns[f].rect.Contains(px, py)
    requires forall c :: 0 <= c < f ==> !btns[c].rect.Contains(px, py)
    ensures Hits(btns, px, py) > 0 && FirstHit(btns, px, py) == f
  {
    var g := FirstHit(btns, px, py);
    assert !(g < f) && !(f < g);
  }

  /** One frame's effect on the press counter `t` and the action it lets
      through, for the cursor at (`px`, `py`): each held button under the
      cursor and a held run button add one, a button or the run button acts
      only when its increment brings the counter to 1, and a released mouse
      puts the counter back to 0. */
  function Debounce(btns: seq<MoveButton>, run: Rect, px: int, py: int, held: bool, t: nat): (p: Press)
    ensures !held && |btns| > 0 ==> p == Press(0, Idle)
    ensures held ==> p.holdTime >= t
    ensures p.action != Idle ==> held && t == 0 && p.holdTime >= 1
    ensures p.action.Create? ==>
              p.action.button < |btns| && btns[p.action.button].rect.Contains(px, py) &&
              forall c :: 0 <= c < p.action.button ==> !btns[c].rect.Contains(px, py)
    ensures p.action.Run? ==>
              run.Contains(px, py) && forall c :: 0 <= c < |btns| ==> !btns[c].rect.Contains(px, py)
    ensures held && t == 0 && (run.Contains(px, py) || Hits(btns, px, py) > 0) ==> p.action != Idle
  {
    if !held then Press(if |btns| > 0 then 0 else t, Idle)
    else
      var c := Hits(btns, px, py);
      var onRun := run.Contains(px, py);
      Press(t + c + (if onRun then 1 else 0),
            if t == 0 && c > 0 then Create(FirstHit(btns, px, py))
            else if t == 0 && onRun then Run
            else Idle)
  }

  /** How many frames of a press held over the cursor positions `cursor`,
      starting from counter `t`, created a block or started a run. */
  function FiredWhileHeld(btns: seq<MoveButton>, run: Rect, cursor: seq<(int, int)>, t: nat): nat
  {
    if cursor == [] then 0
    else
      var p := Debounce(btns, run, cursor[0].0, cursor[0].1, true, t);
      (if p.action != Idle then 1 else 0) + FiredWhileHeld(btns, run, cursor[1..], p.holdTime)
  }

  /** However long a press is held and wherever the cursor goes meanwhile, it
      creates at most one block or starts at most one run; and none at all once
      the counter is above 0. */
  lemma {:induction false} HeldPressFiresAtMostOnce(btns: seq<MoveButton>, run: Rect, cursor: seq<(int, int)>, t: nat)
    ensures FiredWhileHeld(btns, run, cursor, t) <= 1
    ensures t > 0 ==> FiredWhileHeld(btns, run, cursor, t) == 0
  {
    if cursor != [] {
      var p := Debounce(btns, run, cursor[0].0, cursor[0].1, true, t);
      HeldPressFiresAtMostOnce(btns, run, cursor[1..], p.holdTime);
    }
  }

  // ---------------------------------------------------------------------------
  // The block loop's bookkeeping, on values
  // ---------------------------------------------------------------------------

  /** The state of the block loop of `update` after it has reached the blocks
      `visited` of the list `s` it started from. `p` is how far into `s` the
      loop has got, `i` its Python index into the list it walks (`items`),
      `ml` the model's list, `m0` the model's list at the start, `gone` the
      blocks thrown away so far. While the two lists are one (`shared`), the
      walked list is the kept prefix followed by the untouched rest; otherwise
      it is `s` itself and only the model's list shrinks. */
  ghost predicate Walk(s: seq<Move>, drop: set<Move>, shared: bool, m0: seq<Move>, p: nat, i: int,
                       gone: set<Move>, visited: seq<Move>, items: seq<Move>, ml: seq<Move>)
  {
    Distinct(s) && p <= |s| &&
    gone == (set m | m in visited && m in drop) &&
    (forall k :: 0 <= k < |visited| ==> visited[k] in s[..p]) &&
    (forall q :: p <= q < |s| ==> s[q] !in visited) &&
    (shared ==>
       m0 == s && ml == items && items == Without(s[..p], gone) + s[p..] &&
       (i == |Without(s[..p], gone)| || (p == |s| && i == |Without(s, gone)| + 1)) &&
       visited + Sweep(s[p..], drop) == Sweep(s, drop)) &&
    (!shared ==>
       items == s && i == p && visited == s[..p] && ml == Without(m0, gone) &&
       forall q :: 0 <= q < p && s[q] in drop ==> s[q] in m0)
  }

  lemma {:induction false} WalkStart(s: seq<Move>, drop: set<Move>, shared: bool, m0: seq<Move>)
    requires Distinct(s) && (shared ==> m0 == s)
    ensures Walk(s, drop, shared, m0, 0, 0, {}, [], s, m0)
  {
    WithoutNothing(m0, {});
    assert s[..0] == [] && s[0..] == s;
    assert (set m | m in [] && m in drop) == {};
  }

  /** The next block the loop reaches is the next one of `s`. */
  lemma {:induction false} WalkAt(s: seq<Move>, drop: set<Move>, shared: bool, m0: seq<Move>, p: nat, i: int,
                                  gone: set<Move>, visited: seq<Move>, items: seq<Move>, ml: seq<Move>)
    requires Walk(s, drop, shared, m0, p, i, gone, visited, items, ml)
    requires 0 <= i < |items|
    ensures p < |s| && items[i] == s[p] && s[p] !in visited && s[p] !in gone
  {
    if shared {
      var w := Without(s[..p], gone);
      assert s[..|s|] == s;
      assert |items| == |w| + |s| - p;
      assert items[i] == (w + s[p..])[|w|];
    }
  }

  /** A trash removal that raises `ValueError` only happens once the lists
      are two, for a block the model's list at the start did not hold. */
  lemma {:induction false} WalkCrash(s: seq<Move>, drop: set<Move>, shared: bool, m0: seq<Move>, p: nat, i: int,
                                     gone: set<Move>, visited: seq<Move>, items: seq<Move>, ml: seq<Move>)
    requires Walk(s, drop, shared, m0, p, i, gone, visited, items, ml)
    requires 0 <= i < |items| && p < |s| && items[i] == s[p] && s[p] !in gone
    requires s[p] !in ml
    ensures !shared && s[p] !in m0
  {
    assert items[i] in items;
    WithoutHas(m0, gone, s[p]);
  }

  /** The part of the bookkeeping both cases share, after reaching `s[p]` and
      moving on to `p'`. */
  lemma {:induction false} ReachedStep(s: seq<Move>, drop: set<Move>, p: nat, p': nat,
                                       gone: set<Move>, visited: seq<Move>)
      returns (gone': set<Move>)
    requires Distinct(s) && p < p' <= |s|
    requires gone == (set m | m in visited && m in drop)
    requires forall k :: 0 <= k < |visited| ==> visited[k] in s[..p]
    requires forall q :: p <= q < |s| ==> s[q] !in visited
    ensures gone' == if s[p] in drop then gone + {s[p]} else gone
    ensures gone' == (set m | m in visited + [s[p]] && m in drop)
    ensures forall k :: 0 <= k < |visited + [s[p]]| ==> (visited + [s[p]])[k] in s[..p']
    ensures forall q :: p' <= q < |s| ==> s[q] !in visited + [s[p]]
  {
    var x := s[p];
    var v := visited + [x];
    gone' := if x in drop then gone + {x} else gone;
    assert gone' == (set m | m in v && m in drop);
    forall k | 0 <= k < |v| ensures v[k] in s[..p'] {
      if k < |visited| {
        assert visited[k] in s[..p];
        var j :| 0 <= j < p && s[..p][j] == visited[k];
        assert s[..p'][j] == visited[k];
      } else {
        assert s[..p'][p] == x;
      }
    }
    forall q | p' <= q < |s| ensures s[q] !in v {
      assert s[q] != x;
    }
  }

  /** One block reached while the two lists are one. */
  lemma {:induction false} WalkStepShared(s: seq<Move>, drop: set<Move>, m0: seq<Move>, p: nat, i: int,
                                          gone: set<Move>, visited: seq<Move>, items: seq<Move>,
                                          items': seq<Move>)
      returns (p': nat, gone': set<Move>)
    requires Walk(s, drop, true, m0, p, i, gone, visited, items, items) && Distinct(items)
    requires 0 <= i < |items| && p < |s| && items[i] == s[p]
    requires items' == if s[p] in drop then RemoveFirst(items, s[p]) else items
    ensures Walk(s, drop, true, m0, p', i + 1, gone', visited + [s[p]], items', items')
  {
    var x := s[p];
    p' := if x in drop && p + 2 <= |s| then p + 2 else p + 1;
    gone' := ReachedStep(s, drop, p, p', gone, visited);
    KeptRemoveStep(s, p, gone, x in drop, i, items, items');
    SweepStep(s, p, drop, visited);
  }

  /** One block reached once the lists are two: the walked list stays, the
      model's list loses the block when the block is thrown away. */
  lemma {:induction false} WalkStepApart(s: seq<Move>, drop: set<Move>, m0: seq<Move>, p: nat,
                                         gone: set<Move>, visited: seq<Move>, ml: seq<Move>, ml': seq<Move>)
      returns (gone': set<Move>)
    requires Walk(s, drop, false, m0, p, p, gone, visited, s, ml) && Distinct(ml)
    requires p < |s|
    requires s[p] in drop ==> s[p] in ml
    requires ml' == if s[p] in drop then RemoveFirst(ml, s[p]) else ml
    ensures Walk(s, drop, false, m0, p + 1, p + 1, gone', visited + [s[p]], s, ml')
  {
    var x := s[p];
    gone' := ReachedStep(s, drop, p, p + 1, gone, visited);
    assert visited + [x] == s[..p + 1];
    if x in drop {
      RemoveFirstIsWithout(ml, x);
      WithoutWithout(m0, gone, {x});
      WithoutHas(m0, gone, x);
      assert ml' == Without(m0, gone') && x in m0;
    } else {
      assert ml' == Without(m0, gone');
    }
    assert forall q :: 0 <= q < p + 1 && s[q] in drop ==> s[q] in m0 by {
      forall q | 0 <= q < p + 1 && s[q] in drop ensures s[q] in m0 {
        if q < p {
          assert s[q] in m0;
        }
      }
    }
  }

  /** One block reached, whether the lists are one or two. */
  lemma {:induction false} WalkNext(s: seq<Move>, drop: set<Move>, shared: bool, m0: seq<Move>, p: nat, i: int,
                                    gone: set<Move>, visited: seq<Move>, items: seq<Move>, ml: seq<Move>,
                                    items': seq<Move>, ml': seq<Move>)
      returns (p': nat, gone': set<Move>)
    requires Walk(s, drop, shared, m0, p, i, gone, visited, items, ml) && Distinct(ml)
    requires 0 <= i < |items|
    requires items[i] in drop ==> items[i] in ml
    requires ml' == if items[i] in drop then RemoveFirst(ml, items[i]) else ml
    requires items' == if shared then ml' else items
    ensures Walk(s, drop, shared, m0, p', i + 1, gone', visited + [items[i]], items', ml')
  {
    WalkAt(s, drop, shared, m0, p, i, gone, visited, items, ml);
    if shared {
      p', gone' := WalkStepShared(s, drop, m0, p, i, gone, visited, items, items');
    } else {
      gone' := WalkStepApart(s, drop, m0, p, gone, visited, ml, ml');
      p' := p + 1;
    }
  }

  /** The loop's own state as a value: the list it walks, the model's list,
      its Python index, the blocks reached so far, and whether every turn so
      far met only blocks `list.remove` accepts. */
  datatype Pass = Pass(items: seq<Move>, queue: seq<Move>, i: nat, visited: seq<Move>, clean: bool)

  /** The turn does not meet a block `list.remove` would reject. */
  predicate Removable(pass: Pass, drop: set<Move>)
  {
    pass.i < |pass.items| && pass.items[pass.i] in drop ==> pass.items[pass.i] in pass.queue
  }

  /** One turn of the block loop on values: the block under the index is
      reached and, when it is on the trash and still in the model's list,
      removed from the model's list, which is the walked list too while the
      lists are one (`shared`). */
  function Next(pass: Pass, drop: set<Move>, shared: bool): (r: Pass)
    ensures r.i == if pass.i < |pass.items| then pass.i + 1 else pass.i
    ensures r.clean ==> pass.clean && Removable(pass, drop)
  {
    if pass.i >= |pass.items| then pass
    else
      var x := pass.items[pass.i];
      var queue := if x in drop && x in pass.queue then RemoveFirst(pass.queue, x) else pass.queue;
      Pass(if shared then queue else pass.items, queue, pass.i + 1, pass.visited + [x],
           pass.clean && Removable(pass, drop))
  }

  /** The loop state after `n` turns from the walked list `s` and the
      model's list `m0`. */
  function Turns(s: seq<Move>, m0: seq<Move>, drop: set<Move>, shared: bool, n: nat): (r: Pass)
    ensures r.i <= n
  {
    if n == 0 then Pass(s, m0, 0, [], true) else Next(Turns(s, m0, drop, shared, n - 1), drop, shared)
  }

  /** Every state the loop reaches without raising satisfies the
      bookkeeping. */
  lemma {:induction false} RunWalk(s: seq<Move>, m0: seq<Move>, drop: set<Move>, shared: bool, n: nat)
      returns (p: nat, gone: set<Move>)
    requires Distinct(s) && Distinct(m0) && (shared ==> m0 == s)
    requires Turns(s, m0, drop, shared, n).clean
    ensures var r := Turns(s, m0, drop, shared, n);
            Walk(s, drop, shared, m0, p, r.i, gone, r.visited, r.items, r.queue) && Distinct(r.queue)
  {
    if n == 0 {
      WalkStart(s, drop, shared, m0);
      p, gone := 0, {};
    } else {
      var p0, gone0 := RunWalk(s, m0, drop, shared, n - 1);
      var pass := Turns(s, m0, drop, shared, n - 1);
      var r := Turns(s, m0, drop, shared, n);
      assert r == Next(pass, drop, shared);
      if pass.i < |pass.items| {
        var x := pass.items[pass.i];
        assert r.items == (if shared then r.queue else pass.items) && r.visited == pass.visited + [x];
        if x in drop {
          RemoveFirstIsWithout(pass.queue, x);
          WithoutDistinct(pass.queue, {x});
        }
        p, gone := WalkNext(s, drop, shared, m0, p0, pass.i, gone0, pass.visited, pass.items, pass.queue,
                            r.items, r.queue);
      } else {
        assert r == pass;
        p, gone := p0, gone0;
      }
    }
  }

  /** The block the loop is about to reach is one of the start list it has
      not reached yet. */
  lemma {:induction false} RunAt(s: seq<Move>, m0: seq<Move>, drop: set<Move>, shared: bool, n: nat)
    requires Distinct(s) && Distinct(m0) && (shared ==> m0 == s)
    requires Turns(s, m0, drop, shared, n).clean
    ensures var r := Turns(s, m0, drop, shared, n);
            (r.i < |r.items| ==> r.items[r.i] in s && r.items[r.i] !in r.visited) &&
            forall k :: 0 <= k < |r.items| ==> r.items[k] in s
  {
    var p, gone := RunWalk(s, m0, drop, shared, n);
    var r := Turns(s, m0, drop, shared, n);
    if r.i < |r.items| {
      WalkAt(s, drop, shared, m0, p, r.i, gone, r.visited, r.items, r.queue);
    }
    forall k | 0 <= k < |r.items| ensures r.items[k] in s {
      if shared {
        var w := Without(s[..p], gone);
        if k < |w| {
          assert r.items[k] == w[k] && w[k] in s[..p];
        } else {
          assert r.items[k] == s[p..][k - |w|];
        }
      }
    }
  }

  /** A turn that raises reaches a block the model's list did not hold at the
      start, which can only happen once the lists are two. */
  lemma {:induction false} RunRaises(s: seq<Move>, m0: seq<Move>, drop: set<Move>, shared: bool, n: nat)
    requires Distinct(s) && Distinct(m0) && (shared ==> m0 == s)
    requires Turns(s, m0, drop, shared, n).clean
    requires !Removable(Turns(s, m0, drop, shared, n), drop)
    ensures var r := Turns(s, m0, drop, shared, n);
            !shared && r.items[r.i] in s && r.items[r.i] in drop && r.items[r.i] !in m0
  {
    var p, gone := RunWalk(s, m0, drop, shared, n);
    var r := Turns(s, m0, drop, shared, n);
    WalkAt(s, drop, shared, m0, p, r.i, gone, r.visited, r.items, r.queue);
    WalkCrash(s, drop, shared, m0, p, r.i, gone, r.visited, r.items, r.queue);
  }

  /** A loop that ends without raising has reached the sweep of the start
      list (all of it once the lists are two), left the model's list without
      the trashed blocks it reached, and met no block `list.remove` rejects. */
  lemma {:induction false} RunDone(s: seq<Move>, m0: seq<Move>, drop: set<Move>, shared: bool, n: nat)
    requires Distinct(s) && Distinct(m0) && (shared ==> m0 == s)
    requires Turns(s, m0, drop, shared, n).clean
    requires Turns(s, m0, drop, shared, n).i >= |Turns(s, m0, drop, shared, n).items|
    ensures var r := Turns(s, m0, drop, shared, n);
            r.visited == (if shared then Sweep(s, drop) else s) &&
            r.queue == Without(m0, set m | m in r.visited && m in drop) &&
            r.items == (if shared then r.queue else s) &&
            forall k :: 0 <= k < |s| && s[k] in drop ==> s[k] in m0
  {
    var p, gone := RunWalk(s, m0, drop, shared, n);
    var r := Turns(s, m0, drop, shared, n);
    WalkDone(s, drop, shared, m0, p, r.i, gone, r.visited, r.items, r.queue);
  }

  /** When the loop ends it has reached the sweep of `s` (or all of `s` when
      the lists are two), and the model's list is the start one less the
      blocks thrown away. */
  lemma {:induction false} WalkDone(s: seq<Move>, drop: set<Move>, shared: bool, m0: seq<Move>, p: nat, i: int,
                                    gone: set<Move>, visited: seq<Move>, items: seq<Move>, ml: seq<Move>)
    requires Walk(s, drop, shared, m0, p, i, gone, visited, items, ml)
    requires i >= |items|
    ensures visited == if shared then Sweep(s, drop) else s
    ensures ml == Without(m0, gone) && items == if shared then ml else s
    ensures forall k :: 0 <= k < |s| && s[k] in drop ==> s[k] in m0
  {
    if shared {
      assert |items| == |Without(s[..p], gone)| + |s| - p;
      assert s[..p] == s && s[p..] == [];
      assert visited + [] == visited;
    } else {
      assert s[..p] == s;
    }
  }

  /** The number of blocks of the walked list `w` that are dragging at a turn
      of the loop that has already reached `done`, for blocks of the start
      list `s` whose fields were `before` and whose turns met the counts
      `counts` (both by position in `s`): a reached block is dragging as
      `Grabbed` says, any other as it was before the frame. */
  function DraggingAt(w: seq<Move>, done: seq<Move>, s: seq<Move>, before: seq<BlockState>, counts: seq<nat>,
                      mx: int, my: int, held: bool): (n: nat)
    requires |before| == |s| && |counts| == |s|
    ensures n <= |w|
  {
    if w == [] then 0
    else
      var x := w[0];
      var dragging := x in s &&
        var q := IndexOf(s, x);
        if x in done then Grabbed(before[q], mx, my, held, counts[q]) else before[q].isDragging;
      (if dragging then 1 else 0) + DraggingAt(w[1..], done, s, before, counts, mx, my, held)
  }

  /** `counts` holds turn `j`'s count at the position of the block that turn
      reaches: the number of blocks dragging in the walked list as the turn
      began, which is the sum of line 142 at that turn, worked out from the
      blocks' fields before the frame and the counts of the earlier turns. */
  ghost predicate CountedAt(s: seq<Move>, m0: seq<Move>, drop: set<Move>, shared: bool, j: nat,
                            before: seq<BlockState>, counts: seq<nat>, mx: int, my: int, held: bool)
  {
    |before| == |s| && |counts| == |s| &&
    var r := Turns(s, m0, drop, shared, j);
    r.i < |r.items| && r.items[r.i] in s ==>
      counts[IndexOf(s, r.items[r.i])] == DraggingAt(r.items, r.visited, s, before, counts, mx, my, held)
  }

  /** `counts` holds the count of each of the first `n` turns of the loop. */
  ghost predicate Counted(s: seq<Move>, m0: seq<Move>, drop: set<Move>, shared: bool, n: nat,
                          before: seq<BlockState>, counts: seq<nat>, mx: int, my: int, held: bool)
  {
    |before| == |s| && |counts| == |s| &&
    (n > 0 ==> Counted(s, m0, drop, shared, n - 1, before, counts, mx, my, held) &&
               CountedAt(s, m0, drop, shared, n - 1, before, counts, mx, my, held))
  }

  /** When every block of `w` is one of `s`, and each block of `s` is dragging
      as `Grabbed` says (if reached) or as before (if not), the heap's count of
      dragging blocks is `DraggingAt`. */
  lemma {:induction false} CountingNow(w: seq<Move>, done: seq<Move>, s: seq<Move>, before: seq<BlockState>,
                                       counts: seq<nat>, mx: int, my: int, held: bool)
    requires |before| == |s| && |counts| == |s|
    requires forall k :: 0 <= k < |w| ==> w[k] in s
    requires forall q :: 0 <= q < |s| ==>
               s[q].isDragging == if s[q] in done then Grabbed(before[q], mx, my, held, counts[q])
                                  else before[q].isDragging
    ensures CountDragging(w) == DraggingAt(w, done, s, before, counts, mx, my, held)
  {
    if w != [] {
      assert forall k :: 0 <= k < |w| - 1 ==> w[1..][k] == w[k + 1];
      CountingNow(w[1..], done, s, before, counts, mx, my, held);
    }
  }

  /** `DraggingAt` only looks at the counts of reached blocks. */
  lemma {:induction false} DraggingAtKeeps(w: seq<Move>, done: seq<Move>, s: seq<Move>, before: seq<BlockState>,
                                           counts: seq<nat>, counts': seq<nat>, mx: int, my: int, held: bool)
    requires |before| == |s| && |counts| == |s| && |counts'| == |s|
    requires forall q :: 0 <= q < |s| && s[q] in done ==> counts[q] == counts'[q]
    ensures DraggingAt(w, done, s, before, counts, mx, my, held) == DraggingAt(w, done, s, before, counts', mx, my, held)
  {
    if w != [] {
      DraggingAtKeeps(w[1..], done, s, before, counts, counts', mx, my, held);
    }
  }

  /** Changing the count at the position of a block none of the first `n`
      turns has reached keeps their counts. */
  lemma {:induction false} CountedKeeps(s: seq<Move>, m0: seq<Move>, drop: set<Move>, shared: bool, n: nat,
                                        before: seq<BlockState>, counts: seq<nat>, mx: int, my: int, held: bool,
                                        p: nat, c: nat)
    requires Counted(s, m0, drop, shared, n, before, counts, mx, my, held)
    requires p < |s| && s[p] !in Turns(s, m0, drop, shared, n).visited
    ensures Counted(s, m0, drop, shared, n, before, counts[p := c], mx, my, held)
  {
    if n > 0 {
      var r := Turns(s, m0, drop, shared, n - 1);
      assert Turns(s, m0, drop, shared, n) == Next(r, drop, shared);
      assert s[p] !in r.visited && (r.i < |r.items| ==> r.items[r.i] != s[p]);
      CountedKeeps(s, m0, drop, shared, n - 1, before, counts, mx, my, held, p, c);
      DraggingAtKeeps(r.items, r.visited, s, before, counts, counts[p := c], mx, my, held);
    }
  }

  /** Recording turn `i`'s count at the position `p` of the block it reaches
      keeps the counts of the earlier turns. */
  lemma {:induction false} CountedStep(s: seq<Move>, m0: seq<Move>, drop: set<Move>, shared: bool, i: nat,
                                       before: seq<BlockState>, counts: seq<nat>, mx: int, my: int, held: bool,
                                       p: nat, c: nat)
    requires Distinct(s) && Counted(s, m0, drop, shared, i, before, counts, mx, my, held)
    requires var r := Turns(s, m0, drop, shared, i);
             r.i < |r.items| && p < |s| && s[p] == r.items[r.i] && s[p] !in r.visited &&
             c == DraggingAt(r.items, r.visited, s, before, counts, mx, my, held)
    ensures Counted(s, m0, drop, shared, i + 1, before, counts[p := c], mx, my, held)
  {
    var r := Turns(s, m0, drop, shared, i);
    CountedKeeps(s, m0, drop, shared, i, before, counts, mx, my, held, p, c);
    DraggingAtKeeps(r.items, r.visited, s, before, counts, counts[p := c], mx, my, held);
    assert IndexOf(s, r.items[r.i]) == p;
  }

  // ---------------------------------------------------------------------------
  // The controller
  // ---------------------------------------------------------------------------

  class Controller {
    const model: Model
    var mouseHeld: bool
    var dragIndex: int
    /** Bound once to the model's list; `Model.Execute` later rebinds the
        model's field, not this one. */
    const instructions: MoveList
    var btnHoldTime: nat
    var keyHeld: bool

    ghost predicate Valid()
      reads this, model, model.instructions, instructions
    {
      model.Valid() && Distinct(instructions.items)
    }

    constructor (model: Model)
      requires model.Valid()
      ensures Valid() && this.model == model && instructions == model.instructions
      ensures !mouseHeld && dragIndex == 0 && btnHoldTime == 0 && !keyHeld
    {
      this.model := model;
      mouseHeld := false;
      dragIndex := 0;
      instructions := model.instructions;
      btnHoldTime := 0;
      keyHeld := false;
    }

    /** `handle_pygame_mouse`: a press sets the held flag, a release clears it. */
    method HandleMouse(event: EventType)
      modifies this`mouseHeld
      ensures mouseHeld == match event
                           case MouseButtonDown => true
                           case MouseButtonUp => false
                           case OtherEvent => old(mouseHeld)
    {
      if event == MouseButtonDown {
        mouseHeld := true;
      }
      if event == MouseButtonUp {
        mouseHeld := false;
      }
    }

    /** One pass of the block loop in `update`, for the block `element` of the
        controller's list: drag acquire or release, hover text, trash, and
        following the cursor. `ok` is false where Python's `list.remove` raises
        `ValueError`: the block is not in the model's current list. */
    method VisitBlock(element: Move, mx: int, my: int) returns (ok: bool)
      requires Valid() && element in instructions.items
      modifies this`dragIndex, element, model.instructions
      ensures Valid()
      ensures element.duration == old(element.duration)
      ensures element.isDragging ==
                if old(element.rect).Contains(mx, my) && mouseHeld && old(CountDragging(instructions.items)) <= 1 then true
                else if !mouseHeld || old(CountDragging(instructions.items)) >= 1 then false
                else old(element.isDragging)
      ensures dragIndex ==
                if old(element.rect).Contains(mx, my) && mouseHeld && old(CountDragging(instructions.items)) <= 1
                then IndexOf(old(instructions.items), element)
                else old(dragIndex)
      ensures element.textVisible == (old(element.rect).Contains(mx, my) && !mouseHeld)
      ensures element.rect == if element.isDragging then old(element.rect).CentredOn(mx, my) else old(element.rect)
      ensures var trashed := old(element.rect).Contains(model.trash.x, model.trash.y) && !mouseHeld;
              ok == (!trashed || element in old(model.instructions.items)) &&
              model.instructions.items ==
                if trashed && ok then RemoveFirst(old(model.instructions.items), element)
                else old(model.instructions.items)
    {
      var held := CountDragging(instructions.items);
      if element.rect.Contains(mx, my) && mouseHeld && held <= 1 {
        element.isDragging := true;
        dragIndex := IndexOf(instructions.items, element);
      } else if !mouseHeld || held >= 1 {
        element.isDragging := false;
      }

      element.textVisible := element.rect.Contains(mx, my) && !mouseHeld;

      ok := true;
      if element.rect.Contains(model.trash.x, model.trash.y) && !mouseHeld {
        if element !in model.instructions.items {
          ok := false;
          return;
        }
        RemoveFirstIsWithout(model.instructions.items, element);
        WithoutDistinct(model.instructions.items, {element});
        model.instructions.items := RemoveFirst(model.instructions.items, element);
      }

      if element.isDragging {
        element.rect := element.rect.CentredOn(mx, my);
      }
    }

    /** The block loop after `i` turns: the lists are those of `Turns`, which
        has not yet reached a `ValueError`, and `drop` holds the blocks of `s`
        whose state in `before` puts them over the trash. */
    ghost predicate Sweeping(i: nat, s: seq<Move>, m0: seq<Move>, drop: set<Move>, shared: bool,
                             visited: seq<Move>, before: seq<BlockState>)
      reads this, model, model.instructions, instructions
    {
      Valid() && Distinct(s) && Distinct(m0) && (shared ==> m0 == s) &&
      shared == (instructions == model.instructions) && |before| == |s| &&
      (forall q :: 0 <= q < |s| ==> (s[q] in drop <==> before[q].rect.Contains(model.trash.x, model.trash.y) && !mouseHeld)) &&
      Turns(s, m0, drop, shared, i) == Pass(instructions.items, model.instructions.items, i, visited, true)
    }

    /** One turn of the block loop: `VisitBlock` on the block at position `i`
        of the controller's list, which is `s[p]`, with the pass so far and
        the turn's count of dragging blocks as ghost parameters. */
    method Turn(i: nat, mx: int, my: int, ghost s: seq<Move>, ghost m0: seq<Move>, ghost drop: set<Move>,
                ghost shared: bool, ghost visited: seq<Move>, ghost before: seq<BlockState>,
                ghost counts: seq<nat>, ghost p: nat, ghost count: nat)
      returns (ok: bool)
      requires Sweeping(i, s, m0, drop, shared, visited, before) && i < |instructions.items|
      requires p < |s| && s[p] == instructions.items[i] && count == CountDragging(instructions.items)
      requires Marked(s, before, visited, counts, mx, my, mouseHeld)
      modifies this`dragIndex, model.instructions, instructions.items[i]
      ensures Marked(s, before, visited + [s[p]], counts[p := count], mx, my, mouseHeld)
      ensures |instructions.items| <= old(|instructions.items|)
      ensures ok ==> Sweeping(i + 1, s, m0, drop, shared, visited + [s[p]], before)
      ensures !ok ==> Sweeping(i, s, m0, drop, shared, visited, before) &&
                      !Removable(Turns(s, m0, drop, shared, i), drop)
    {
      RunAt(s, m0, drop, shared, i);
      ghost var items, ml := instructions.items, model.instructions.items;
      var element := instructions.items[i];
      ghost var trashed := element.rect.Contains(model.trash.x, model.trash.y) && !mouseHeld;
      assert trashed <==> element in drop;
      ghost var start := element.State();
      assert start == before[p];
      assert count == 0 ==> !start.isDragging;
      ok := VisitBlock(element, mx, my);
      assert model.instructions.items == if trashed && ok then RemoveFirst(ml, element) else ml;
      ghost var reached := visited + [element];
      ghost var counts' := counts[p := count];
      assert Reached(element, start, mx, my, mouseHeld, count);
      forall q | 0 <= q < |s|
        ensures if s[q] in reached then Reached(s[q], before[q], mx, my, mouseHeld, counts'[q])
                else s[q].State() == before[q]
      {
        if s[q] != element {
          assert s[q].State() == old(s[q].State());
          assert s[q] in reached <==> s[q] in visited;
        } else {
          assert q == p;
        }
      }
      if ok {
        assert Next(Pass(items, ml, i, visited, true), drop, shared) ==
               Pass(instructions.items, model.instructions.items, i + 1, reached, true);
      }
    }

    /** The block loop after `i` turns, with the count each reached block's
        turn met. */
    ghost predicate Looping(i: nat, s: seq<Move>, m0: seq<Move>, drop: set<Move>, shared: bool,
                            visited: seq<Move>, before: seq<BlockState>, counts: seq<nat>, mx: int, my: int)
      reads this, model, model.instructions, instructions
    {
      Sweeping(i, s, m0, drop, shared, visited, before) &&
      Counted(s, m0, drop, shared, i, before, counts, mx, my, mouseHeld) && |visited| == i
    }

    /** What the block loop has done once it stops after `turns` turns, `ok`
        telling whether it ran to the end. */
    ghost predicate Walked(turns: nat, ok: bool, s: seq<Move>, m0: seq<Move>, drop: set<Move>, shared: bool,
                           visited: seq<Move>, before: seq<BlockState>, counts: seq<nat>, mx: int, my: int)
      reads this, model, model.instructions, instructions
    {
      Valid() &&
      (var r := Turns(s, m0, drop, shared, turns);
       r.clean && instructions.items == r.items && model.instructions.items == r.queue &&
       (ok ==> r.i >= |r.items| && visited == r.visited) &&
       (!ok ==> !Removable(r, drop) && r.i < |r.items| && visited == r.visited + [r.items[r.i]]))
    }

    /** A loop that has run past the last block has walked the whole list. */
    lemma LoopEnds(i: nat, s: seq<Move>, m0: seq<Move>, drop: set<Move>, shared: bool,
                   visited: seq<Move>, before: seq<BlockState>, counts: seq<nat>, mx: int, my: int)
      requires Looping(i, s, m0, drop, shared, visited, before, counts, mx, my) && i >= |instructions.items|
      ensures Walked(i, true, s, m0, drop, shared, visited, before, counts, mx, my)
    {
    }

    /** One turn of the block loop together with its count of dragging
        blocks, which is recorded at the position of the block reached. */
    method Step(i: nat, mx: int, my: int, ghost s: seq<Move>, ghost m0: seq<Move>, ghost drop: set<Move>,
                ghost shared: bool, ghost visited: seq<Move>, ghost before: seq<BlockState>, ghost counts: seq<nat>)
      returns (ok: bool, ghost visited': seq<Move>, ghost counts': seq<nat>)
      requires Looping(i, s, m0, drop, shared, visited, before, counts, mx, my) && i < |instructions.items|
      requires Marked(s, before, visited, counts, mx, my, mouseHeld)
      modifies this`dragIndex, model.instructions, s
      ensures visited' == visited + [old(instructions.items[i])]
      ensures |instructions.items| <= old(|instructions.items|)
      ensures Marked(s, before, visited', counts', mx, my, mouseHeld)
      ensures Counted(s, m0, drop, shared, i + 1, before, counts', mx, my, mouseHeld)
      ensures ok ==> Looping(i + 1, s, m0, drop, shared, visited', before, counts', mx, my)
      ensures !ok ==> Walked(i, false, s, m0, drop, shared, visited', before, counts', mx, my)
    {
      RunAt(s, m0, drop, shared, i);
      ghost var element := instructions.items[i];
      ghost var p := IndexOf(s, element);
      ghost var count := CountDragging(instructions.items);
      CountingNow(instructions.items, visited, s, before, counts, mx, my, mouseHeld);
      ok := Turn(i, mx, my, s, m0, drop, shared, visited, before, counts, p, count);
      CountedStep(s, m0, drop, shared, i, before, counts, mx, my, mouseHeld, p, count);
      counts' := counts[p := count];
      visited' := visited + [element];
    }

    /** The block loop of `update` (a Python `for` over the controller's own
        list). While that list is still the model's list, a block the pass
        throws away shifts the rest of the list under the loop, so the block
        after it is not reached this frame; once `Model.Execute` has given the
        model a new list, the loop walks the old list, which never shrinks,
        and a trash removal of a block the new list does not hold raises
        `ValueError` (`ok` false). `visited` is the blocks reached, in order. */
    method UpdateBlocks(mx: int, my: int) returns (ok: bool, ghost visited: seq<Move>, ghost turns: nat,
                                                   ghost counts: seq<nat>)
      requires Valid()
      modifies this`dragIndex, model.instructions, instructions.items
      ensures Valid()
      ensures var r := Turns(old(instructions.items), old(model.instructions.items),
                             old(Droppable(instructions.items, model.trash, mouseHeld)),
                             instructions == model.instructions, turns);
              r.clean && instructions.items == r.items && model.instructions.items == r.queue &&
              (ok ==> r.i >= |r.items| && visited == r.visited) &&
              (!ok ==> !Removable(r, old(Droppable(instructions.items, model.trash, mouseHeld))) &&
                       r.i < |r.items| && visited == r.visited + [r.items[r.i]])
      ensures Counted(old(instructions.items), old(model.instructions.items),
                      old(Droppable(instructions.items, model.trash, mouseHeld)), instructions == model.instructions,
                      |visited|, old(States(instructions.items)), counts, mx, my, mouseHeld)
      ensures Marked(old(instructions.items), old(States(instructions.items)), visited, counts, mx, my, mouseHeld)
    {
      ghost var s := instructions.items;
      ghost var m0 := model.instructions.items;
      ghost var before := States(s);
      ghost var drop := Droppable(s, model.trash, mouseHeld);
      DroppableHas(s, model.trash, mouseHeld);
      ghost var shared := instructions == model.instructions;
      ok, visited, turns, counts := BlockLoop(mx, my, s, m0, drop, shared, before);
    }

    /** The loop of `UpdateBlocks` over the blocks, stated against the
        frame-start list `s`, model list `m0`, trash set `drop` and block
        states `before`. */
    method BlockLoop(mx: int, my: int, ghost s: seq<Move>, ghost m0: seq<Move>, ghost drop: set<Move>,
                     ghost shared: bool, ghost before: seq<BlockState>)
      returns (ok: bool, ghost visited: seq<Move>, ghost turns: nat, ghost counts: seq<nat>)
      requires Looping(0, s, m0, drop, shared, [], before, seq(|s|, _ => 0), mx, my)
      requires Marked(s, before, [], seq(|s|, _ => 0), mx, my, mouseHeld)
      modifies this`dragIndex, model.instructions, s
      ensures Walked(turns, ok, s, m0, drop, shared, visited, before, counts, mx, my)
      ensures Counted(s, m0, drop, shared, |visited|, before, counts, mx, my, mouseHeld)
      ensures Marked(s, before, visited, counts, mx, my, mouseHeld)
    {
      counts := seq(|s|, _ => 0);
      var i: nat := 0;
      visited := [];
      ok := true;
      while i < |instructions.items|
        invariant Looping(i, s, m0, drop, shared, visited, before, counts, mx, my)
        invariant Marked(s, before, visited, counts, mx, my, mouseHeld)
      {
        ok, visited, counts := Step(i, mx, my, s, m0, drop, shared, visited, before, counts);
        if !ok {
          break;
        }
        i := i + 1;
      }
      if ok {
        LoopEnds(i, s, m0, drop, shared, visited, before, counts, mx, my);
      }
      turns := i;
    }

    /** The move buttons before `b` have had their turn in a frame that began
        with counter `t0` and queue `m0`: the counter has grown by the held
        hits, and `made` is the block the first hit created, if any. */
    ghost predicate Scanned(b: nat, t0: nat, m0: seq<Move>, first: int, made: seq<Move>, mx: int, my: int)
      reads this, model, model.instructions, instructions, made
    {
      Valid() && b <= |model.btns| && |made| <= 1 && first < b &&
      btnHoldTime == (if mouseHeld then t0 + Hits(model.btns[..b], mx, my) else if b > 0 then 0 else t0) &&
      (first >= 0 <==> mouseHeld && t0 == 0 && Hits(model.btns[..b], mx, my) > 0) &&
      (first >= 0 <==> |made| == 1) &&
      model.instructions.items == m0 + made &&
      (first >= 0 ==>
         model.btns[first].rect.Contains(mx, my) &&
         (forall c :: 0 <= c < first ==> !model.btns[c].rect.Contains(mx, my)) &&
         IsNewBlock(made[0], model.btns[first], model.robot))
    }

    /** One move button's turn in the button section. */
    method PressButton(b: nat, mx: int, my: int, ghost t0: nat, ghost m0: seq<Move>, ghost first: int,
                       ghost made: seq<Move>)
      returns (ghost first': int, ghost made': seq<Move>)
      requires b < |model.btns| && Scanned(b, t0, m0, first, made, mx, my)
      modifies this`btnHoldTime, model.instructions
      ensures Scanned(b + 1, t0, m0, first', made', mx, my)
      ensures made' == made || (made == [] && |made'| == 1 && fresh(made'[0]))
    {
      var btn := model.btns[b];
      assert Hits(model.btns[..b + 1], mx, my) ==
             Hits(model.btns[..b], mx, my) + if btn.rect.Contains(mx, my) then 1 else 0 by {
        assert model.btns[..b + 1][..b] == model.btns[..b];
      }
      first', made' := first, made;
      if btn.rect.Contains(mx, my) && mouseHeld {
        btnHoldTime := btnHoldTime + 1;
        if btnHoldTime <= 1 {
          assert first < 0 && made == [] && model.instructions.items == m0;
          CreateObject(btn, model);
          first', made' := b, [model.instructions.items[|m0|]];
          assert model.instructions.items == m0 + made';
        }
      } else if !mouseHeld {
        btnHoldTime := 0;
      }
    }

    /** The move buttons' half of the button section: each held button under
        the cursor adds one to the counter and the first of them creates a
        block when the counter was 0; a released mouse resets the counter. */
    method PressButtons(mx: int, my: int)
      requires Valid()
      modifies this`btnHoldTime, model.instructions
      ensures Valid()
      ensures btnHoldTime == if mouseHeld then old(btnHoldTime) + Hits(model.btns, mx, my)
                             else if |model.btns| > 0 then 0 else old(btnHoldTime)
      ensures if mouseHeld && old(btnHoldTime) == 0 && Hits(model.btns, mx, my) > 0
              then AppendedNewBlock(old(model.instructions.items), model.instructions.items,
                                    model.btns[FirstHit(model.btns, mx, my)], model.robot)
              else model.instructions.items == old(model.instructions.items)
      ensures unchanged(old(model.instructions.items))
    {
      ghost var t0 := btnHoldTime;
      ghost var m0 := model.instructions.items;
      ghost var first := -1;
      ghost var made: seq<Move> := [];
      assert m0 + made == m0;
      for b := 0 to |model.btns|
        invariant Scanned(b, t0, m0, first, made, mx, my)
        invariant made == [] || fresh(made[0])
      {
        first, made := PressButton(b, mx, my, t0, m0, first, made);
      }
      assert model.btns[..|model.btns|] == model.btns;
      if first >= 0 {
        FirstHitIs(model.btns, mx, my, first);
        assert model.instructions.items[..|m0|] == m0;
      }
    }

    /** The run button's half of the button section: a held run button under
        the cursor adds one to the counter and, when that brings it to 1,
        runs the queue. Its reset of the counter sits in a branch that needs
        the mouse both held and released, so it never happens. */
    method PressRun(mx: int, my: int) returns (out: seq<Emission>)
      requires Valid()
      modifies this`btnHoldTime, model`instructions
      ensures Valid()
      ensures btnHoldTime == if model.runBtn.Contains(mx, my) && mouseHeld then old(btnHoldTime) + 1
                             else old(btnHoldTime)
      ensures if model.runBtn.Contains(mx, my) && mouseHeld && old(btnHoldTime) == 0
              then fresh(model.instructions) &&
                   model.instructions.items == SortByX(old(model.instructions.items)) &&
                   |out| == |model.instructions.items| &&
                   forall k :: 0 <= k < |out| ==> out[k] == EmissionOf(model.instructions.items[k])
              else model.instructions == old(model.instructions) && out == []
    {
      out := [];
      if model.runBtn.Contains(mx, my) && mouseHeld {
        btnHoldTime := btnHoldTime + 1;
        if btnHoldTime <= 1 {
          out := model.Execute();
        } else if !mouseHeld {
          assert false;
        }
      }
    }

    /** The button section of `update`: each held button under the cursor,
        then a held run button under it, adds one to the press counter, and
        acts only when that brings the counter to 1; a released mouse sets
        the counter back to 0 at each button. `out` is what a run prints. */
    method UpdateButtons(mx: int, my: int) returns (out: seq<Emission>)
      requires Valid()
      modifies this`btnHoldTime, model`instructions, model.instructions
      ensures Valid()
      ensures var p := Debounce(model.btns, model.runBtn, mx, my, mouseHeld, old(btnHoldTime));
              btnHoldTime == p.holdTime &&
              (p.action == Idle ==>
                 model.instructions == old(model.instructions) &&
                 model.instructions.items == old(model.instructions.items) && out == []) &&
              (p.action.Create? ==>
                 model.instructions == old(model.instructions) && out == [] &&
                 AppendedNewBlock(old(model.instructions.items), model.instructions.items,
                                  model.btns[p.action.button], model.robot)) &&
              (p.action.Run? ==>
                 fresh(model.instructions) &&
                 model.instructions.items == SortByX(old(model.instructions.items)) &&
                 old(model.instructions).items == old(model.instructions.items) &&
                 |out| == |model.instructions.items| &&
                 forall k :: 0 <= k < |out| ==> out[k] == EmissionOf(model.instructions.items[k]))
    {
      PressButtons(mx, my);
      out := PressRun(mx, my);
    }

    /** The block section of a frame, in the terms of the frame: the loop
        raises exactly when a block of the list it walks lies on the trash with
        the mouse up and is missing from the model's list; without a raise it
        reaches the sweep of its list (all of it once `execute` has given the
        model a list of its own), the model's list loses exactly the reached
        blocks on the trash, and the walked list is that list or, once the
        lists are two, keeps its contents. */
    method BlockSection(mx: int, my: int) returns (ok: bool, ghost visited: seq<Move>, ghost counts: seq<nat>)
      requires Valid()
      modifies this`dragIndex, model.instructions, instructions.items
      ensures Valid()
      ensures var s := old(instructions.items);
              var drop := old(Droppable(instructions.items, model.trash, mouseHeld));
              (ok <==> forall k :: 0 <= k < |s| && s[k] in drop ==> s[k] in old(model.instructions.items)) &&
              (ok ==> visited == if instructions == model.instructions then Sweep(s, drop) else s)
      ensures Counted(old(instructions.items), old(model.instructions.items),
                      old(Droppable(instructions.items, model.trash, mouseHeld)), instructions == model.instructions,
                      |visited|, old(States(instructions.items)), counts, mx, my, mouseHeld)
      ensures Marked(old(instructions.items), old(States(instructions.items)), visited, counts, mx, my, mouseHeld)
      ensures ok ==>
                var q := Without(old(model.instructions.items),
                                 set m | m in visited && m in old(Droppable(instructions.items, model.trash, mouseHeld)));
                model.instructions.items == q &&
                instructions.items == if instructions == model.instructions then q else old(instructions.items)
    {
      ghost var s := instructions.items;
      ghost var m0 := model.instructions.items;
      ghost var drop := Droppable(s, model.trash, mouseHeld);
      ghost var shared := instructions == model.instructions;
      ghost var turns;
      ok, visited, turns, counts := UpdateBlocks(mx, my);
      if ok {
        RunDone(s, m0, drop, shared, turns);
      } else {
        RunRaises(s, m0, drop, shared, turns);
      }
    }

    /** One frame of the controller: the block loop, then, unless a trash
        removal raised `ValueError` (`ok` false), the button section. The
        loop raises exactly when a block of the list it walks lies on the
        trash with the mouse up and is missing from the model's list; without
        a raise it reaches the sweep of its list (all of it once `execute` has
        given the model a list of its own), the model's list loses the blocks
        it threw away, and the buttons then act on that list. */
    method Update(mx: int, my: int) returns (ok: bool, out: seq<Emission>, ghost visited: seq<Move>,
                                             ghost counts: seq<nat>)
      requires Valid()
      modifies this`dragIndex, this`btnHoldTime, model`instructions, model.instructions, instructions.items
      ensures Valid()
      ensures var s := old(instructions.items);
              var drop := old(Droppable(instructions.items, model.trash, mouseHeld));
              (ok <==> forall k :: 0 <= k < |s| && s[k] in drop ==> s[k] in old(model.instructions.items)) &&
              (ok ==> visited == if old(instructions == model.instructions) then Sweep(s, drop) else s)
      ensures Counted(old(instructions.items), old(model.instructions.items),
                      old(Droppable(instructions.items, model.trash, mouseHeld)),
                      old(instructions == model.instructions),
                      |visited|, old(States(instructions.items)), counts, mx, my, mouseHeld)
      ensures Marked(old(instructions.items), old(States(instructions.items)), visited, counts, mx, my, mouseHeld)
      ensures !ok ==> btnHoldTime == old(btnHoldTime) && model.instructions == old(model.instructions) && out == []
      ensures ok && old(instructions != model.instructions) ==> instructions.items == old(instructions.items)
      ensures ok ==>
                var q := Without(old(model.instructions.items),
                                 set m | m in visited && m in old(Droppable(instructions.items, model.trash, mouseHeld)));
                var p := Debounce(model.btns, model.runBtn, mx, my, mouseHeld, old(btnHoldTime));
                btnHoldTime == p.holdTime &&
                (p.action == Idle ==>
                   model.instructions == old(model.instructions) && model.instructions.items == q && out == []) &&
                (p.action.Create? ==>
                   model.instructions == old(model.instructions) && out == [] &&
                   AppendedNewBlock(q, model.instructions.items, model.btns[p.action.button], model.robot)) &&
                (p.action.Run? ==>
                   fresh(model.instructions) && model.instructions.items == SortByX(q) &&
                   instructions.items == (if old(instructions == model.instructions) then q else old(instructions.items)) &&
                   |out| == |q| && forall k :: 0 <= k < |out| ==> out[k] == EmissionOf(model.instructions.items[k]))
    {
      ghost var s := instructions.items;
      ghost var m0 := model.instructions.items;
      ghost var drop := Droppable(s, model.trash, mouseHeld);
      ghost var shared := instructions == model.instructions;
      ghost var before := States(s);
      ok, visited, counts := BlockSection(mx, my);
      assert Counted(s, m0, drop, shared, |visited|, before, counts, mx, my, mouseHeld);
      out := [];
      if ok {
        assert Marked(s, before, visited, counts, mx, my, mouseHeld);
        out := UpdateButtons(mx, my);
        assert Marked(s, before, visited, counts, mx, my, mouseHeld);
      }
    }
  }
}
