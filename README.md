# Rover client core, modelled in Dafny

This project models the sequential decision core of an ICFP 2008 Mars-rover client written in Python 2. Eight modules, one per concern:

- `wrappers.dfy` (`Wrappers`) holds `Option` and `Result`, the latter with failure propagation.
- `strings.dfy` (`Strings`) holds the first index of a character and the concatenation of a list of strings.
- `commands.dfy` (`Commands`) holds the vocabulary of control messages: acceleration and turn symbols, a message, a deferred message, and the turn-angle guard.
- `client.dfy` (`Client`) models `src/client.py`:
  - `similar` and `similar_position`, and the obstacle registry `Map.notice`;
  - the telemetry interval tracker `recordCommunicationsData`;
  - `findHomePoint`, and the decision part of `steerToPoint`;
  - the stream framing of `TwistedClient.dataReceived`.
- `message.py` is modelled by `message.dfy` (`Message`): `safe_split`, `str.split`/`str.strip` with one separator character, and `parse_message`, including its martian-object loop.
- `event.dfy` (`Event`) models `EventQueue`: sorted insertion, pop from the front, time of the next event.
- `nav.dfy` (`Nav`) models `src/nav.py`: the `A_star` search with its heap and closed set, and `MapGrid` (cell numbering, `coord`, `cost`, `distance`, the eight-way neighbour list and its obstacle filter, `path`).
- `strategies.dfy` (`Strategies`) models the decision logic of `basic_strategy`.

State that the source changes in place is modelled as Dafny classes:

- `Map.objects`, `RoverController.telemetryIntervals`/`avgInterval`, `TwistedClient.buf` and `EventQueue.queue` are fields.
- Their methods state the new state through a specification function of the old state: `Noticed`, `NextWindow`/`DampedInterval`, `AllFrames`/`Concat`, `InsertionPoint`.

Loops become `while` or `for` loops with invariants and are proved against those functions. Examples are the martian-object loop `ParseObjects`, the padding loop `SafeSplit`, the search `AStar` and the push loop `PushSuccessors`.

What the source does not show is taken as input:

- the wall clock (`now`);
- Python's `int()`/`float()` on a token, as partial functions `toInt`/`toFloat`;
- `math.hypot`;
- the results of `mars_math.steer_to_point`/`find_heading` and of `determineAcceleration`.

The effects `sendMessage` and `reactor.callLater` are returned as a `Decision`: one command sent now, plus an optional `(delay, command)` pair.

Behaviours of the code that the model keeps as written:

- **Stuck object loop.** The object loop never advances on a leading token other than `m`; the model returns `Err(Stuck(token))`.
  - The code cannot parse the telemetry sample of the simulator's manual, which `tests/test_parse.py:5` and `tests/test_message.py:8-9` use. The sample lists a boulder `b` before its martian `m`, and the loop is stuck on the `b` (`SampleTelemetryIsStuck`).
- **Frames keep their `;`.** `dataReceived` (`src/client.py:248-253`) hands each message to the parser with its closing `;` still attached. No `T` message in that form parses (`TerminatedTelemetryFails`):
  - with fewer than eight fields, the `;` lands in the last field present and the fields after it are empty, so `int()` or `float()` refuses one of them;
  - with all eight, the object string ends in `;`, and the object loop is stuck on its last token or fails to convert it.
- **Swapped heap entries.** `A_star` pushes `(cost, heuristic cost, path)` but unpacks popped entries the other way round. The model proves path validity and completeness, never optimality.
- **`coord` is not the inverse of `node`.** `coord` decodes `node % res` as the column, while `node` encodes the column as `node / res`. See `CoordTransposes` and `NodeThenCoordSwapsAxes`.
- **`_adjacent` yields transposed cells.** `_adjacent` reads `i = node % res` and `j = node / res`, then builds each candidate as `(i + di) * res + j + dj`. Read back the same way, that is the cell `(j + dj, i + di)`, which in general is not a neighbour of `(i, j)`. At resolution 10, node 23 gets the RIGHT candidate 42, which reads back as `i = 2`, `j = 4` (`TargetTransposes`, `RightOfTwentyThree`).
- **`DOWN LEFT` duplicates `UP RIGHT`.** The `DOWN LEFT` candidate yields the same node as `UP RIGHT`. The `i < w` guard never fails.
- **`BASE_POINTS`.** It lists `(-5, 0)` twice and has no `(0, -5)`.
- **The turn-angle guard.** `abs(radians < bound)` only rejects `radians >= pi * 1.01`.
- **`path` uses a global grid.** `path` calls the methods of a global grid `m`; the model uses the grid's own.

## Model

| member | source | states |
|---|---|---|
| Client.SimilarReflexive | src/client.py:28-30 | every value is similar to itself |
| Client.SimilarToZero | src/client.py:28-30 | `similar(0, b)` holds exactly when `b == 0`, since the tolerance is 5% of the first argument |
| Client.SimilarNotSymmetric | src/client.py:28-30 | `similar(100, 95)` holds while `similar(95, 100)` does not: the relation is not symmetric |
| Client.Noticed | src/client.py:42-51 | a martian leaves the list unchanged; otherwise existing entries keep their order, the list grows by at most one, it grows exactly when no stored entry of the same kind is `similar_position`, the new entry is the object, and afterwards some entry matches it |
| Client.Map.Notice | src/client.py:42-51 | the `for`/`else` loop leaves `objects` equal to `Noticed` of the old list |
| Client.DeltaSumTelescopes | src/client.py:110 | the sum of consecutive differences of a window is its last entry minus its first |
| Client.NextWindow | src/client.py:106-116 | the new timestamp is last; the window drops only its oldest entry when it would exceed 3; it stays within 3 entries if it was |
| Client.DampedInterval | src/client.py:108-119 | 0 for an empty window, otherwise 0.9 × (now − oldest) / number of intervals |
| Client.IntervalsAtZeroOneTwo | src/client.py:93-119 | timestamps 0, 1, 2 give the window [0, 1, 2] and a damped interval of 0.9 |
| Client.RoverController.RecordCommunicationsData | src/client.py:93-119 | the loop over consecutive pairs leaves the window and the average equal to `NextWindow` and `DampedInterval` of the old window |
| Client.FirstFarthest | src/client.py:143-145 | the index of the first point at maximal squared distance, as `max` with a key returns it |
| Client.FindHomePoint | src/client.py:136-145 | the origin when x² + y² > 400, otherwise the first farthest of the eight base points |
| Client.HomePointAtCentre | src/client.py:21-23 | at (0, 0) the axis points are 5 away and the diagonal points `sin(pi/4) * 5` slightly less, so the first entry (-5, 0) is returned |
| Client.DuplicateBasePointNeverChosen | src/client.py:21-23 | the second copy of (-5, 0) is never chosen, because its first copy comes earlier |
| Client.HomePointNeverSouth | src/client.py:136-145 | the home point is never (0, -5), which is missing from the ring |
| Client.SteerToPoint | src/client.py:147-185 | the guard error exactly when radians ≥ π·1.01; below 5° one ACCELERATE message with the turn that undoes the current one and nothing deferred; otherwise RIGHT for negative radians and LEFT else, with the opposite turn deferred by t − 0.015 exactly when 0 < t − 0.015 < average interval |
| Client.FirstFrameDetermined | src/client.py:248-252 | two frames at the head of the same text are the same frame |
| Client.FramingIsUnique | src/client.py:246-252 | a text splits in only one way into `;`-terminated frames plus a `;`-free rest |
| Client.TwistedClient.DataReceived | src/client.py:240-255 | every emitted message ends in `;` with no other `;`; the messages and the remaining buffer concatenate to the old buffer plus the data; the remaining buffer holds no `;` |
| Strings.FirstIndex | src/client.py:248 | `None` exactly when the character is absent, otherwise its first position |
| Strings.ConcatAppend | src/client.py:251-252 | concatenating one more message extends the concatenation by it |
| Message.Split | src/message.py:6 | at least one field; no field before the last holds the separator; at most `maxsplit + 1` fields; the last field is separator-free when the splits were not exhausted |
| Message.SplitJoin | src/message.py:6 | joining the fields with the separator gives back the text |
| Message.JoinSplit | src/message.py:6 | splitting a join of separator-free fields gives back the fields |
| Message.DropLeading | src/message.py:16 | drops exactly the leading whitespace |
| Message.DropTrailing | src/message.py:16 | drops exactly the trailing whitespace |
| Message.Padded | src/message.py:7-8 | length `max(n, len)`, the fields kept, then empty strings |
| Message.SafeSplit | src/message.py:5-9 | the padding loop returns `split(sep, n - 1)` padded to `n` fields, exactly `n` for n ≥ 1 |
| Message.Floats | src/message.py:20-24 | every value converted in order, or the error of the first token refused |
| Message.ParseObjects | src/message.py:38-52 | the object loop returns what `Objects` specifies, including the stuck outcome |
| Message.ObjectsConsumeFive | src/message.py:43-50 | each record consumes exactly five tokens, led by `m`, in order |
| Message.LeadingNonMartianIsStuck | src/message.py:41-52 | a leading token other than `m` consumes nothing: the loop is stuck on it |
| Message.ParseMessage | src/message.py:11-55 | the parser returns what `Parse` specifies |
| Message.DispatchOnFirstCharacter | src/message.py:11-55 | empty input is an error; a first character other than `I` or `T` gives the empty record |
| Message.InitialNeedsNineTokens | src/message.py:14-24 | an `I` message not strip-splitting into nine tokens is an error; a parsed one keeps `dx`, `dy` as raw tokens and `time_limit` as the integer of the fourth |
| Message.TelemetryFields | src/message.py:25-36 | a `T` message is cut into eight fields, the last holding the rest of the line; accel and turn state are the first two characters of the control token; an empty object string gives no objects |
| Message.JoinedTelemetryError | src/message.py:25-52 | a `T` line of eight space-free leading fields whose numbers convert fails with exactly the error of its object field |
| Message.SampleTelemetryIsStuck | src/message.py:39-52 | the manual's sample telemetry line, with its boulder and its martian, is stuck on its `b` token |
| Message.SplitKeepsLastChar | src/message.py:6 | the last field of a split ends with the text's last character, when that character is not the separator |
| Message.TerminatedObjectsFail | src/message.py:41-52 | a token list whose last token holds a `;` never completes the object loop: it is stuck or fails |
| Message.TerminatedObjectFieldFails | src/message.py:39-52 | an object string ending in `;` never parses, for a `float()` refusing every token holding a `;` |
| Message.TerminatedTelemetryFails | src/message.py:25-52 | a `T` message that ends in `;` never parses, whatever its fields, for an `int()`/`float()` refusing the empty token and every token holding a `;` |
| Event.InsertionPointSplits | src/event.py:18-20 | in a sorted queue, events before the insertion point are no later than the new time and events after it are later |
| Event.InsertKeepsSorted | src/event.py:18-20 | inserting at that point keeps the queue sorted |
| Event.FindInsertionPoint | src/event.py:19-20 | the scan finds the insertion point |
| Event.EventQueue.Insert | src/event.py:18-20 | the queue stays sorted, holds the old events plus the new one, and the new event lands after those with equal time |
| Event.EventQueue.Pop | src/event.py:22-23 | an empty queue is an error and stays empty; otherwise the first event is returned and the rest keep their order |
| Event.EventQueue.NextTime | src/event.py:25-30 | `LARGE_NUM` for an empty queue, otherwise the earliest event's time minus now |
| Nav.PathLeqTotal | src/nav.py:15 | the tuple order on paths is total |
| Nav.PathLeqTransitive | src/nav.py:15 | the tuple order on paths is transitive |
| Nav.PathLeqAntisymmetric | src/nav.py:15 | two paths each at most the other are equal |
| Nav.LeastEntryIsUnique | src/nav.py:15 | the least heap entry is one value, whichever copy is popped |
| Nav.LeastIndex | src/nav.py:15 | `heappop` takes an entry no greater than any other |
| Nav.PushSuccessors | src/nav.py:22-25 | one entry per successor, in order, each extending the path by that successor, with the costs the source computes |
| Nav.AStar | src/nav.py:4-26 | a returned path starts at `start`, ends at `goal` and steps through successors; `start == goal` gives `(start,)`; "No path found" exactly when `goal` is unreachable; each node is expanded at most once, and never the goal |
| Nav.EnclosedGoalUnreachable | src/nav.py:14-26 | a goal outside a successor-closed set holding `start` is unreachable |
| Nav.Trunc | src/nav.py:49-50 | `int()` rounds toward zero |
| Nav.NodeInRange | src/nav.py:46-51 | inside the grid's rectangle, `node` is `i * resolution + j` with `0 ≤ i, j < resolution` |
| Nav.Cost | src/nav.py:53-54 | every step costs 1.0 |
| Nav.DistanceIgnoresRows | src/nav.py:56-61 | the heuristic reads only `node % resolution`, so nodes a row apart are at the same distance |
| Nav.CoordTransposes | src/nav.py:63-70 | the node of column i, row j decodes to the corner of column j, row i |
| Nav.NodeThenCoordSwapsAxes | src/nav.py:46-70 | on a 10 × 10 grid of resolution 200, (-5, 0) comes back as (0, -5) |
| Nav.AllowedMoves | src/nav.py:92-107 | exactly the moves whose guard holds |
| Nav.CandidatesAreAllowedTargets | src/nav.py:86-107 | a node is yielded by `_adjacent(node)` exactly when some move's guard holds at `(node % res, node / res)` and that move's target is the node |
| Nav.TargetIsShift | src/nav.py:86-107 | each target is the cell `(i + ColumnStep, j + RowStep)` in the encoding `a * res + b`, with steps within -1..1 and a step back only under the guard `i > 0` or `j > 0`; DOWN LEFT steps (+1, +1) as written |
| Nav.TargetTransposes | src/nav.py:81-107 | read back as `_adjacent` reads a node (`i = node % res`, `j = node / res`), a target with its row index in range is the transposed cell `(j + RowStep, i + ColumnStep)` |
| Nav.RightOfTwentyThree | src/nav.py:81-107 | at resolution 10, node 23 (`i = 3`, `j = 2`) has the RIGHT candidate 42, which reads back as `i = 2`, `j = 4` |
| Nav.FirstColumnGuards | src/nav.py:100-107 | with i = 0 no LEFT, UP LEFT or DOWN LEFT candidate |
| Nav.BottomRowGuards | src/nav.py:98-105 | with j = 0 no DOWN, DOWN RIGHT or DOWN LEFT candidate |
| Nav.DownLeftIsUpRight | src/nav.py:96-101 | DOWN LEFT yields the node UP RIGHT yields |
| Nav.RightAlwaysYielded | src/nav.py:87-93 | `i = node % resolution` is always below the width, so RIGHT is always yielded |
| Nav.Unblocked | src/nav.py:81-84 | exactly the candidates that are not obstacles |
| Nav.AdjacentAreUnblockedTargets | src/nav.py:81-107 | a node is yielded by `adjacent(node)` exactly when it is an allowed move's target and not an obstacle |
| Nav.UnblockedAppend | src/nav.py:81-84 | filtering keeps the order of `_adjacent` |
| Nav.NothingBlocked | src/nav.py:81-84 | with no obstacles `adjacent` yields exactly `_adjacent` |
| Nav.AdjacentStaysInBox | src/nav.py:86-107 | from resolution 2 on, `adjacent` never leaves `[min(start, 0), max(start, 2·res² + 2)]` |
| Nav.Path | src/nav.py:75-79 | the points of a walk over `adjacent` from the start node to the goal node; an error exactly when the goal node is unreachable; the `coord` of the start's node alone when both fall in one node (a cell corner with the axes swapped, not the start point) |
| Strategies.BasicStrategy | src/strategies.py:9-56 | the guard error exactly when radians ≥ π·1.01; keeping course sends one message and schedules nothing; otherwise RIGHT for negative radians and LEFT else, with the opposite turn deferred by t exactly when 0 < t < average interval; every command carries `accel` |
| Strategies.ForcedTurnTurns | src/strategies.py:25-56 | a forced turn always issues a turn |
| Strategies.TurningStateOnlyCorrectsCourse | src/strategies.py:25-56 | the reported turning state changes the decision only while keeping course |
| Strategies.LargeTurnsAgreeWithSteerToPoint | src/strategies.py:41-56 | when `basic_strategy` is called with `accel` = ACCELERATE, on turns of at least 10° the message sent now is the one `steerToPoint` sends |

## Left out

- Twisted networking and timers are not modelled: `connectionMade`, `sendMessage`, `messageReceived`, the client factory and the `__main__` blocks of `src/client.py` and `src/nav.py`.
  - `reactor.callLater` calls are returned as `(delay, command)` values, not run.
- `setTelemetry`, `setInitial` and `start` are not modelled; they are glue between the parser, the timers and the deciders.
- `Message.parse`, which `dataReceived` calls, does not exist in the source; frames are returned instead of parsed.
- `MARTIAN`, `ACCELERATE`, `LEFT`, `RIGHT` and `Message.create` are used by `notice`, `steerToPoint` and `basic_strategy`, and `BRAKE` by `start`, but none of them is defined anywhere in the source (`src/message.py` defines none of them), so those calls would raise NameError as written. The model gives them their evident meaning: the martian kind, and the acceleration and turn symbols of a control message.
- `ROLL`, which `RoverController.__init__` assigns to `self.acceleration` (src/client.py:85), is defined nowhere either, so as written every construction of a `RoverController`, and so of a `TwistedClient` (src/client.py:234), raises NameError. The model's constructors `Client.RoverController.constructor` and `Client.TwistedClient.constructor` succeed, and the model has no `acceleration` field, since nothing it models reads it.
- `src/mars_math.py` is not part of this model. `steer_to_point`, `find_heading`, `to_radians` and the vector types are not in the source; their results are inputs.
- The wall clock (`time.time()`) is the parameter `now`.
- Event.EventQueue.NextTime: `src/event.py` never imports `time`, so `next_time` on a non-empty queue raises NameError as written. The model returns the evidently intended `time - now`.
- Floating point is modelled by exact reals, so rounding in sums, products and comparisons is not modelled.
  - `math.pi` is the literal 3.141592653589793, the shortest decimal that reads back as its double.
  - `sin(pi/4) * 5` is the exact value of the double it evaluates to, 3.535533905932737308575042334268800914287567138671875. This is one unit in the last place below the double nearest to 5/√2. It makes the centre's home point (-5, 0) (`HomePointAtCentre`).
- The degree-to-radian conversion of `parse_message` is not modelled. Directions are kept in degrees only.
- `int()` and `float()` on tokens are the uninterpreted partial functions `toInt`/`toFloat`.
- `math.hypot` is the parameter `hypot`.
- `Event.execute` and the event's `args` are not modelled; `execute` refers to an unbound name.
- `MapGrid.add_obstacle` does nothing, so `obstacles` is a given set. `Map.size` is never read.
- Logging, `print` and log-string building are not modelled.
- `Message.Split`: it models `str.split` with a one-character separator only, the only kind the parser uses.
- `Nav.Path` requires resolution ≥ 2, because at resolution 1 the node graph is infinite. There, RIGHT always moves to `node + 1`, and the search need not end.
- `Nav.AStar` requires a finite set of nodes that holds `start` and is closed under `successors`. This is what makes the search end; it is not a condition the source checks.
- `Nav.MapGrid` requires positive width and height and a resolution of at least 1. With a zero width or resolution the source divides by zero; negative values are not modelled.
- `Client.RoverController.constructor` sets `avgInterval` to 0. The source does not set `avg_interval` before the first `recordCommunicationsData` call.
- `Client.Map.Notice`: an object is a kind and a position; the other keys of the source's dictionaries are not modelled.
