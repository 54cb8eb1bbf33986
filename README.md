# UnoCube Atom, modelled in Dafny

`Atom` animates one LED of a 4x4x4 cube. It walks a fixed closed loop of
twelve cells: the rim of the top face (z = 3), going left, then rear, then
right, then front. A driving loop calls `Forward()` or `Backward()` over and
over. A call steps only when both of these hold:

- the atom still has life cycles left;
- the clock has passed the stored deadline `timeToMove`.

A step does four things:

- it records the old index as `previousIndex`;
- it moves `currentIndex` one cell, wrapping between 11 and 0;
- it sets the next deadline to the clock reading plus `speed`;
- it reports `true`.

Each wrap of the loop, in either direction, uses up one life cycle. A refused
call reports `false` and changes nothing. Accessors return the current and
previous cells, the axis and offset tags given at construction, and the
remaining life count.

The project has two modules:

- `cube_path.dfy`, module `CubePath`. It holds the path table as a constant
  sequence of `(x, y, z)` triples. It also holds lemmas about the table's
  shape: every cell is on the rim, consecutive cells (including 11 back to 0)
  are neighbours, no cell repeats, and every rim cell is on the path.
- `atom.dfy`, module `UnoCube`. It holds three things:
  - `AtomState`, a snapshot of all the atom's fields;
  - `ForwardStep` and `BackwardStep`, which give the effect of one call;
  - `Run`, which gives the effect of any sequence of calls, with lemmas about
    it.

  It also holds the class `Atom`, with the source's fields. Its constructor,
  `Forward` and `Backward` update those fields in place, mirroring the C++
  line by line. Each method is proved to have exactly the effect of the
  matching step function on the atom's state.

The Arduino clock `millis()` becomes explicit arguments. The constructor
takes one reading, `now`. `Forward` and `Backward` read the clock twice in the
source: once for the gate and once for the new deadline. So they take two
readings, `now` for the gate and `later` for the deadline.

## Model

| member | source | states |
|---|---|---|
| `CubePath.Cell` | Sketches/UnoCube/Atom.h:20-25 | every path cell has x, y in 0..3 and z = 3, and lies on the border of the top face |
| `CubePath.PathIsClosedWalk` | Sketches/UnoCube/Atom.h:20-25 | the table has 12 cells; each cell and the next one, including 11 back to 0, differ by 1 in exactly one coordinate |
| `CubePath.PathIsSimple` | Sketches/UnoCube/Atom.h:20-25 | the 12 cells are pairwise distinct |
| `CubePath.PathCoversRim` | Sketches/UnoCube/Atom.h:20-25 | every border cell of the top face appears in the table, so the loop is the whole edge |
| `UnoCube.ForwardStep` | Sketches/UnoCube/Atom.h:39-49 | a step happens exactly when lifeCycles > 0 and now > timeToMove. A refused call leaves every field unchanged. A step sets previousIndex to the old index, currentIndex to (old + 1) mod 12 and timeToMove to later + speed, where later is the second clock reading. It takes one life cycle only on the wrap from 11 to 0. Indices stay in 0..11; speed, axis and offset are untouched |
| `UnoCube.BackwardStep` | Sketches/UnoCube/Atom.h:51-61 | the same gate and refusal as Forward. A step sets currentIndex to (old + 11) mod 12 and takes one life cycle only on the wrap from 0 to 11 |
| `UnoCube.Run` | Sketches/UnoCube/Atom.h:39-61 | after any sequence of Forward/Backward calls, currentIndex and previousIndex are both in 0..11 |
| `UnoCube.RunKeepsTags` | Sketches/UnoCube/Atom.h:29-33 | axis, offset and speed keep their construction values through any sequence of calls |
| `UnoCube.RunLifeCyclesBounds` | Sketches/UnoCube/Atom.h:40-55 | over any sequence of calls, lifeCycles never increases, and it never goes negative if it started at 0 or more |
| `UnoCube.ExhaustedIsFrozen` | Sketches/UnoCube/Atom.h:40-60 | once lifeCycles <= 0, every Forward/Backward call is refused and any sequence of calls leaves the state unchanged |
| `UnoCube.ForwardRun` | Sketches/UnoCube/Atom.h:41-43 | after n successful Forward calls, currentIndex = (start + n) mod 12, and lifeCycles has dropped by the number of wraps, (start + n) div 12 |
| `UnoCube.BackwardRun` | Sketches/UnoCube/Atom.h:53-55 | after n successful Backward calls, currentIndex = (start - n) mod 12, and lifeCycles has dropped by the number of wraps below 0, (11 - start + n) div 12 |
| `UnoCube.FullLoopForward` | Sketches/UnoCube/Atom.h:41-43 | twelve successful Forward calls return currentIndex to its start and use up exactly one life cycle |
| `UnoCube.FullLoopBackward` | Sketches/UnoCube/Atom.h:53-55 | twelve successful Backward calls return currentIndex to its start and use up exactly one life cycle |
| `UnoCube.ForwardThenBackward` | Sketches/UnoCube/Atom.h:41-55 | a successful Forward then a successful Backward restores currentIndex. previousIndex is left at the intermediate cell. If the Forward wrapped from 11, the pair costs two life cycles, not zero |
| `UnoCube.OneLifeCycleScenario` | Sketches/UnoCube/Atom.h:29-48 | an atom in the constructor's state (Initial) at time 0 with speed 50 and one life cycle, driven forward at 51, 102, ..., 612 ms: every call steps, the atom ends on cell 0 with 0 life cycles, and a 13th Forward is refused. Both clock readings of each call are taken equal |
| `UnoCube.Initial` | Sketches/UnoCube/Atom.h:33-36 | the state built at construction satisfies the index invariant, and both indices are on the first path cell (0, 0, 3) |
| `UnoCube.Atom.constructor` | Sketches/UnoCube/Atom.h:29-37 | stores the axis, offset, speed and life count as given; puts both indices at 0; sets the first deadline to now + speed |
| `UnoCube.Atom.Forward` | Sketches/UnoCube/Atom.h:39-49 | updates the fields in place; the result and the new fields are exactly those of ForwardStep on the old fields, so the index invariant holds |
| `UnoCube.Atom.Backward` | Sketches/UnoCube/Atom.h:51-61 | updates the fields in place; the result and the new fields are exactly those of BackwardStep on the old fields |
| `UnoCube.Atom.GetPreviousPosition` | Sketches/UnoCube/Atom.h:63-66 | returns the path cell at previousIndex, which is a rim cell |
| `UnoCube.Atom.GetCurrentPosition` | Sketches/UnoCube/Atom.h:68-71 | returns the path cell at currentIndex, which is a rim cell |
| `UnoCube.Atom.GetAxis` | Sketches/UnoCube/Atom.h:73-76 | returns the axis tag, a `const` field set only by the constructor (RunKeepsTags states the same of the step functions) |
| `UnoCube.Atom.GetOffset` | Sketches/UnoCube/Atom.h:78-81 | returns the offset tag, likewise a `const` field set only by the constructor |
| `UnoCube.Atom.GetLifeCycles` | Sketches/UnoCube/Atom.h:83-86 | returns the remaining life count, which is bounded as in RunLifeCyclesBounds |

## Left out

- The clock: `millis()` is a hardware read. Each reading the source takes becomes an argument (`now`, and `later` for the second reading inside Forward and Backward). Nothing is assumed about how these readings relate, so the model also covers a clock that is not monotonic.
- Time width: `timeToMove` is an `unsigned long` in the source, and `millis() + _speed` wraps after about 49 days. The model uses unbounded integers. So a deadline past the wrap point does not become small again here, and a negative speed gives a negative deadline instead of a wrapped one.
- Integer width: `int` is 16 bits on the Uno. The model's `speed` and `lifeCycles` are unbounded integers. A step only decrements a positive life count, so that field cannot underflow either way.
- Pointer return: `GetCurrentPosition`/`GetPreviousPosition` return a `byte*` into the atom's own table. The model returns the triple as a value, so aliasing and writes through that pointer are not modelled.
- The initializer `_currentIndex = -1` in the class body is not modelled, because the constructor always overwrites it with 0.
- Unvalidated arguments: the constructor accepts any speed and any life count, as the source does. A life count of 0 or less gives an atom that never moves (ExhaustedIsFrozen). Nothing beyond that is claimed for such inputs.
- Oscillating speed: a variant of the atom whose speed speeds up and slows down is not part of this model; its source is not among the files modelled.
- The LED renderer and the main loop that creates and drives atoms are not part of this model.
- `UnoCube.Atom.GetAxis`, `UnoCube.Atom.GetOffset` and `UnoCube.Atom.GetLifeCycles`: each returns its field unchanged, so its own contract only names that field. What is worth knowing about the value is proved by the lemmas cited in its row.
