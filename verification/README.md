# Instruction-block editor: model and proofs

`Arduino_gui_test.py` is a small pygame editor for robot programs.

- Four move buttons ("Straight", "R turn", "L turn", "Arm") each spawn an instruction block.
- Blocks can be dragged about, shown with a duration text box while the released cursor hovers over them, and dropped on the trash zone.
- The run button puts the queue in left-to-right order and prints one line per block.

This project models the per-frame bookkeeping behind that editor. It proves what each step does to the queue, to the blocks and to the press counter.

The model follows the program's model/controller split:

- `seqs.dfy` (module `Seqs`) holds list facts the program relies on:
  - lists without repeats;
  - `list.remove` as removal of a first occurrence;
  - `Sweep`: which elements a Python `for` loop reaches when each reached element on the trash is removed from the list being walked;
  - a stable insertion sort on `(key, value)` pairs, with its ordering, permutation, stability and uniqueness lemmas.
- `gui_model.dfy` (module `GuiModel`) holds the data and the model.
  - `Rect` is `pygame.Rect`, with the half-open `collidepoint`.
  - `MoveButton` is an immutable button; `Move` is a block, a class whose drag, text and position fields change in place.
  - `MoveList` is a Python list object. Two holders can share one of these; this is how the stale-list behaviour is expressed.
  - `Model` holds the fixed layout and the queue, with `Execute` (the run) and `CreateObject` (`Move_button.create_object`).
- `gui_controller.dfy` (module `GuiController`) holds the `Controller` class.
  - `HandleMouse` is the mouse event handler.
  - `Update` is one frame. It is built from `BlockSection` (the loop over blocks in `UpdateBlocks` and `BlockLoop`, one `Step` and `Turn` per block) and `UpdateButtons` (the press counter).
  - Beside the class are value-level specifications the methods are proved against:
    - `Turns`, the block loop as a fold over a `Pass` record, and the `Run*` lemmas about it;
    - `Reached`, what a turn does to the block it reaches, given the number of dragging blocks as that turn begins, and `Counted`, which fixes that number for every turn from the blocks' frame-start states (`DraggingAt`);
    - `Debounce`, one frame of the press counter.

The program's three quirks are part of the model, not corrected:

- **Skip after removal.** Removing a block from the list being walked shifts the next block into the slot the loop just visited, so that block is not reached this frame (`Seqs.SweepVisits`).
- **Stale list.** The controller keeps the list object it was built with. The first run gives the model a new list. After that, the loop walks the old list while creation and removal act on the new one. A block on the trash that the new list does not hold makes `list.remove` raise `ValueError`. The model reports this as `ok == false` from `Update`, with the button section not run.
- **Dead reset.** The run button's `elif not self.mouse_held` sits inside a branch taken only while the mouse is held. The model keeps the branch, and it is proved unreachable there.

A block stores the robot's motors at its button's motor positions (`robot.motors[i]` for each index `i`), not the positions themselves. So a new "Straight" block holds motors `[1, 2]`, the robot's motors at positions 0 and 1, and an "Arm" block holds `[3]` (`GuiModel.MotorLookup`, `GuiModel.Move.constructor`).

## Model

| member | source | states |
|---|---|---|
| GuiModel.MotorLookup | Arduino_gui_test.py:41 | The lookup fails exactly when some index is outside the robot's motor list, negative indices counting from the end. Otherwise the result has one entry per index, each being the robot's motor at that index. |
| GuiModel.Rect.Contains | Arduino_gui_test.py:143 | `collidepoint` is half-open: a rect of zero width or height holds no point, and points on its right or bottom edge are outside. |
| GuiModel.Rect.CentredOn | Arduino_gui_test.py:160-163 | Re-centring on the cursor keeps width and height. A rect of positive size ends up containing the cursor. |
| GuiModel.Move.constructor | Arduino_gui_test.py:40-48 | A new block holds the looked-up motors and copies direction, duration, rect and name. It starts dragging with its text box hidden. |
| GuiModel.CreateObject | Arduino_gui_test.py:32-33 | The model's current list grows by exactly one block at the end, and the earlier blocks stay as they were. The new block is freshly allocated and built from the button. The queue still holds no block twice. |
| GuiModel.Model.constructor | Arduino_gui_test.py:51-65 | Gives the four buttons with their motor positions, directions, durations, rects and names, in order, plus an empty queue. Every button's motor positions are valid for the robot. |
| GuiModel.Emit | Arduino_gui_test.py:69-70 | Gives one printed line per block, in list order, each carrying that block's direction, motors and duration. |
| GuiModel.Model.Execute | Arduino_gui_test.py:67-70 | The model gets a new list object holding `SortByX` of the old contents, and the old object is untouched. The output is one line per block of the new list, in its order. |
| GuiModel.SortByXSpec | Arduino_gui_test.py:68 | The run order is a permutation of the queue. It is non-decreasing in `rect.x`. Among blocks with one `rect.x` it keeps the queue's order. |
| GuiModel.SortByXUnique | Arduino_gui_test.py:68 | Any list ordered by `rect.x` that keeps the queue's order at every `rect.x` is exactly `SortByX` of the queue, so the result of a stable sort is determined. |
| Seqs.SortByKeySorted | Arduino_gui_test.py:68 | The insertion sort's result is ordered by key. |
| Seqs.SortByKeyStable | Arduino_gui_test.py:68 | Among entries with one key, the sort keeps the input's order. |
| Seqs.SortByKeyUnique | Arduino_gui_test.py:68 | A key-ordered list that agrees with the input at every key is the sort's result. |
| GuiController.Controller.constructor | Arduino_gui_test.py:121-128 | A new controller has the mouse up, drag index 0, counter 0 and `key_held` false. It shares the model's current list object. |
| GuiController.Controller.HandleMouse | Arduino_gui_test.py:130-136 | Button-down sets `mouse_held`, button-up clears it, and any other event leaves it. |
| GuiController.CountDragging | Arduino_gui_test.py:142 | The count of dragging blocks is at most the list length. It is 0 exactly when no block is dragging. |
| GuiController.DroppableIs | Arduino_gui_test.py:156-157 | The blocks the trash check removes are exactly the blocks of the list whose rect contains the trash's top-left corner, provided the mouse is up. |
| GuiController.Controller.VisitBlock | Arduino_gui_test.py:141-163 | Drag acquire and release follow the count of dragging blocks in the walked list at this block's turn, and `drag_index` is updated on acquire. Text shows exactly when the released cursor is over the block. A block on the trash is removed from the model's list; it is the error case when that list does not hold it. A block still dragging is centred on the cursor and any other keeps its rect. The duration never changes. |
| Seqs.IndexOf | Arduino_gui_test.py:145 | `list.index` gives a position holding the element, with no earlier position holding it. |
| Seqs.RemoveFirst | Arduino_gui_test.py:157 | `list.remove` of a present element makes the list one shorter. |
| Seqs.RemoveFirstIsWithout | Arduino_gui_test.py:157 | In a list without repeats, `list.remove(x)` leaves exactly the list without `x`. |
| Seqs.SweepVisits | Arduino_gui_test.py:140-157 | While one list is walked and shrunk, a block is reached exactly when it is the first, or its predecessor was not both reached and removed. |
| GuiController.RunAt | Arduino_gui_test.py:140 | The block under the loop's index is always a block of the frame-start list not yet reached. |
| GuiController.RunRaises | Arduino_gui_test.py:140-157 | The loop can only meet a block `list.remove` rejects once the two lists differ. That block is one of the walked list, it lies on the trash, and the model's frame-start list lacks it. |
| GuiController.RunDone | Arduino_gui_test.py:140-157 | A loop that ends normally has visited `Sweep` of the list, or all of it once the lists differ. The model's list has lost exactly the reached blocks on the trash. The walked list is the model's list, or untouched once the lists differ. Every trashed block was in the model's list. |
| GuiController.CountingNow | Arduino_gui_test.py:142 | When each reached block is dragging as `Grabbed` left it and every other block as at frame start, the sum of line 142 over the walked list is `DraggingAt` of that list. |
| GuiController.CountedKeeps | Arduino_gui_test.py:142 | Changing the count of a block no turn has reached yet leaves the counts of all earlier turns as they were. |
| GuiController.CountedStep | Arduino_gui_test.py:142 | Recording a turn's count at the block it reaches keeps `Counted` for all turns so far, so each block's count is fixed once its turn has passed. |
| GuiController.Controller.Turn | Arduino_gui_test.py:141-163 | One iteration keeps the loop in step with `Turns`. The reached block ends as `Reached` says from its frame-start state and the number of dragging blocks in the walked list at this turn. It is dragging exactly when the cursor is held over it and that number is at most 1. Its text shows exactly when the released cursor is over it. It is re-centred when dragging, and its duration stays. No other block changes. A raise happens exactly where `Turns` meets a non-removable block. |
| GuiController.Controller.Step | Arduino_gui_test.py:140-163 | One turn together with its count: the reached block's count is the sum of line 142 at that turn, and `Counted` and `Marked` extend to it. The loop stops only where `Turns` meets a non-removable block. |
| GuiController.Controller.BlockLoop | Arduino_gui_test.py:140-163 | The loop ends in the state `Turns` gives after the turns taken: run to the end, or stopped at a block `list.remove` rejects. Every turn's count is `Counted`, and every block of the frame-start list is `Marked`: reached as `Reached` says, or unchanged. |
| GuiController.Controller.UpdateBlocks | Arduino_gui_test.py:140-163 | After the loop, both lists equal those of `Turns` after the turns taken. It stops early only at a block `list.remove` rejects. Each reached block ends as `Reached` says from its frame-start state and its turn's count. Each count is the number of blocks of the walked list dragging as that turn began: reached ones as `Grabbed` left them, others as at frame start. Every other block keeps its state. |
| GuiController.Controller.BlockSection | Arduino_gui_test.py:140-163 | The block loop raises exactly when a trashed block of the walked list is missing from the model's list. Otherwise it reaches `Sweep` of the list, or all of it once the lists differ. The model's list then loses exactly the reached blocks on the trash, and the walked list is that list or keeps its contents. Blocks end as `Marked` with `Counted` counts. |
| GuiController.Debounce | Arduino_gui_test.py:165-178 | With the mouse up the counter returns to 0 and nothing fires. While held, the counter only grows. An action fires only from counter 0: creation from the first button under the cursor, or a run when no button is under it but the run button is. From counter 0 with something under the cursor, something fires. |
| GuiController.HeldPressFiresAtMostOnce | Arduino_gui_test.py:165-176 | Over any sequence of held frames, at most one block is created or one run started. None at all once the counter starts above 0. |
| GuiController.FirstHitIs | Arduino_gui_test.py:166-169 | The button that creates is the one under the cursor with none under it before. |
| GuiController.Controller.PressButton | Arduino_gui_test.py:166-172 | One button's step keeps `Scanned`: the counter has grown by the held hits so far, and at most one block has been appended. That block is the first hit's, made when the counter was 0. |
| GuiController.Controller.PressButtons | Arduino_gui_test.py:166-172 | The button loop adds the number of held hits to the counter, or resets it on release. It appends one block from the first hit exactly when the mouse is held, the counter was 0 and some button is under the cursor. |
| GuiController.Controller.PressRun | Arduino_gui_test.py:173-178 | A held run button under the cursor adds one to the counter. It runs `Execute` exactly when that brings the counter to 1. Otherwise the list object and the output stay. |
| GuiController.Controller.UpdateButtons | Arduino_gui_test.py:165-178 | The counter ends at `Debounce`'s value. Depending on `Debounce`'s action, the list is unchanged, gains one new block from the chosen button, or is replaced by a fresh `SortByX` of itself with one printed line per block; on a run the previous list object keeps its contents. |
| GuiController.Controller.Update | Arduino_gui_test.py:138-178 | A frame raises exactly when a trashed block of the walked list is missing from the model's list. Without a raise it reaches `Sweep` of the list (all of it once the lists differ), and a controller list that is no longer the model's keeps its contents. Each reached block ends as `Reached` says with its turn's `Counted` count: it is dragging exactly when the cursor is held over it and at most one block of the walked list was dragging as its turn began. Other blocks keep their state. Then the buttons act on the list less its trashed blocks, as `Debounce` says, and after a run the controller's list holds that list. |

## Left out

- The `View` class, drawing, fonts, the display and the frame clock: rendering only, with no state the frame's bookkeeping reads.
- The main loop, `pygame.event.get` and `mouse.get_pos`: the cursor position enters `Update` as the parameters `mx`, `my`, and events enter `HandleMouse` as an `EventType`.
- `update` reads the module-level `model`; the model assumes it is the controller's own model, as the main program builds it.
- The `eztext` text box and the duration edit in the main loop: an external library. `Duration` is an opaque value (a number or typed text), and a frame never changes it.
- The print format of a run: `Execute` returns the printed tuples in order, as `Emission` values.
- `Robot` is the fixed list `[1, 2, 3]` (`GuiModel.RobotMotors`).
- `Move_button.model` and `robot`: `CreateObject` takes the model as a parameter and reads its robot (`model.robot`) instead of the button's own references, which in the program are the same objects.
- `Move_button.is_pushed`, the block's text box and `Controller.key_held` are set but never read by the modelled code. They are not modelled, except `key_held`, which the constructor initialises.
- `dock` is a layout constant that `update` never reads; it is kept as a constant only.
- A `ValueError` is returned as `ok == false` from `Update` instead of propagating; the frame stops there and the buttons do not run.
- GuiController.Controller.Update: after a run in a frame where the two lists already differ, does not state the contents of the model's previous list object, which neither the controller nor the model refers to any more; `UpdateButtons` states it.
- "Only one block dragging at a time" is not stated anywhere: new blocks start dragging, and overlapping blocks can both be acquired while one is already dragging.
