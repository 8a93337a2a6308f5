# Rail network tick simulation: a Dafny model of its sequential core

The program reads a rail network: station names, a link-cost matrix, station popularities, the ordered stations of each of three lines, a tick count and the number of trains per line. It then runs trains along the lines one tick at a time. Each tick prints the position of every train. A header, StationWait.h, defines a per-station arrival-statistics record.

The model covers the program's three pieces of sequential logic:

- **Comma-separated lists** (module `CommaList`, `StationLists`). `count_char` counts fields as separators plus one. The `strtok` loops cut a line into station names. C strings are buffers of `char` that end at the first NUL. `strtok` (ISO C11, section 7.24.5.8) is modelled as a function, `StrTok`, with the saved position it hides made an explicit cursor. `StrTokAll` is what successive calls return until NULL. The tokens `StrTok` yields are compared with an independent reference, `Fields`: every field between separators, empty ones included. `Tokens` is the non-empty fields. `get_stations_in_lines` fills, per line, an array with `count_char` slots (main.c:311-312). `get_station_names` fills an array with `num_stations` slots (main.c:337).
- **The per-tick train update** (module `TrainTick`). A train record has a status (`Station`, `LoadStation` or `Link`), a node index on its line and a signed time left. Each tick the time left drops by one. When it is no longer positive, a train at a station goes onto the link with the link's cost as its time. Any other train reaches the next node's station with a dwell value. `Tick` updates each record in place inside the nested line/train loops. `Simulate` runs the outer tick loop. `Step` is one train's transition and `Run` is many ticks of it. The lemmas follow a train through its countdown, its departure and its arrival at the next station. Two unseen headers are kept as parameters. LineNetwork.h becomes the network's successor table and station table. Train.h becomes the numeric value `stationCode` of the enumerator STATION.
- **Station arrival statistics** (module `StationWaitStats`). `train_arrive` updates a record of `unsigned int` fields in place: the count, the last time stamp, and a running minimum and maximum of the raw `time` arguments. The class keeps a ghost history of those arguments. Its invariant ties every field to that history.

The source quirk at main.c:124 is kept exactly as written. The lookup of the current station passes the status `loc` instead of `line_idx`, so the cost a departing train gets depends only on the station after it (`LinkCostIgnoresCurrentNode`).

Three facts about the code shape the model. The OpenMP lock arrays (main.c:79-101) are initialised but never acquired or released. `LOAD_STATION` is tested (main.c:109) but never assigned, so no train ever enters it. `train_arrive` takes its minimum and maximum over the raw time stamps (StationWait.h:26-27), not over the difference from the previous stamp.

In `CommaList`, `StationLists` and `StationWaitStats` the C `unsigned int` is the newtype `CTypes.uint32`. `TrainTick` keeps the unsigned node indices, station numbers, link costs and tick count as `nat`, since nothing there wraps in this code. The `uint32` wrap-around is written out where it can happen: the arrival count and the discarded time difference. Loop counters and buffer sizes are bounded so that they cannot wrap.

## Model

| member | source | states |
|---|---|---|
| CommaList.CountChar | main.c:287-300 | the result is 1 plus the number of occurrences of `ch` before the first NUL, so it is at least 1 and at most the string's length plus 1; neither unsigned counter wraps |
| CommaList.FieldCount | main.c:287-300 | a list has exactly one more field than it has separators, which is what count_char counts |
| CommaList.StrTok | main.c:315-321 | a token strtok returns is non-empty and free of the delimiter, and the cursor moves strictly forward; NULL is returned exactly when only delimiters remain |
| CommaList.StrTokSplits | main.c:315-323 | each strtok call splits off exactly the first non-empty field of the rest of the string; NULL means no token is left |
| CommaList.TokensWellFormed | main.c:315-323 | every token is non-empty and contains no comma |
| CommaList.TokensJoinToInput | main.c:315-323 | the tokens, joined in order, equal the input with every comma removed |
| CommaList.TokenCountBound | main.c:311-323 | there are never more tokens than count_char reports, so the array allocated with that many slots is not overrun |
| CommaList.TokenCountMatchesCountChar | main.c:311-328 | the token count equals count_char's value exactly when the list is non-empty and has no leading, trailing or doubled comma |
| CommaList.StrTokAllIsTokens | main.c:315-323 | calling strtok until it returns NULL yields exactly the non-empty fields, in order |
| StationLists.CopyTokens | main.c:314-323 | the strtok loop writes what the successive strtok calls return, in order, into the first slots and leaves the other slots as they were |
| StationLists.SplitStationList | main.c:307-329 | one line: the array has count_char slots, the station count is count_char's value, and the first slots hold the tokens in order |
| StationLists.GetStationsInLines | main.c:302-333 | for every line, `num_stations_per_line[i]` is count_char's value and the fresh array of that size starts with that line's tokens |
| StationLists.CopyFirstTokens | main.c:339-345 | the loop writes one strtok result per slot, in order; every slot is filled exactly when strtok returns at least as many tokens as there are slots, and otherwise all of them are written before strtok returns NULL |
| StationLists.GetStationNames | main.c:335-348 | succeeds exactly when the list has at least `num_stations` tokens, and then the names are its first `num_stations` tokens; otherwise it stops where strtok returns NULL |
| TrainTick.Step | main.c:108-132 | the node index stays on the line; the status changes exactly when the decremented time is no longer positive; without a change only the time drops by one; LOAD_STATION is never entered; the node moves only on arrival at a station, to the next node |
| TrainTick.Run | main.c:104-134 | after any number of ticks every train is still at a node of its line |
| TrainTick.RunSplit | main.c:104 | running a ticks and then b more is the same as running a + b ticks |
| TrainTick.CountdownKeepsPlace | main.c:115-117 | until the time expires, the status and node are unchanged and the time falls by exactly one per tick |
| TrainTick.Expiry | main.c:117-131 | on the expiring tick a STATION train goes onto the LINK at the same node with the link cost as its time, and any other train reaches the next node's STATION with that tick's dwell value |
| TrainTick.StationToNextStation | main.c:115-131 | a train leaving a station is at the next node's station after its dwell ticks plus the link's ticks |
| TrainTick.LinkCost | main.c:124-125 | the time a departing train gets: the cost matrix entry from the station at node STATION, the status's value passed as a node index, to the station of the next node; `LinkCostIgnoresCurrentNode` and `Expiry` state what that means for a train |
| TrainTick.LinkCostIgnoresCurrentNode | main.c:124-125 | because the status is passed as the node index, the link cost does not depend on the train's current node |
| TrainTick.Tick | main.c:106-134 | every (line, train) pair is updated exactly once in a tick, from its own old record only, and all trains stay on their lines |
| TrainTick.Simulate | main.c:104-156 | after `num_ticks` ticks every train is where `Run` takes it, given the dwell values of each tick |
| StationWaitStats.Sub32 | StationWait.h:19 | `time_diff` is the unsigned 32-bit difference: adding back the previous stamp modulo 2^32 gives the time, and it is the plain difference when no wrap occurs |
| StationWaitStats.Inc32 | StationWait.h:21 | the arrival count increases by exactly one, wrapping to 0 after 0xFFFFFFFF |
| StationWaitStats.StationWait.constructor | StationWait.h:10-16 | the record starts at the commented defaults: min 0xFFFFFFFF, max 0, count 0, time stamp 0, no arrivals |
| StationWaitStats.StationWait.TrainArrive | StationWait.h:18-28 | the time stamp becomes `time`, the count goes up by one, the max becomes max(old max, time) and the min min(old min, time) over the raw time; no field depends on the time difference; the fields still summarise the arrival history |
| StationWaitStats.MinOf | StationWait.h:12-27 | the min field after a sequence of calls, folded from the default 0xFFFFFFFF; `MinOfIsMinimum` proves it is the smallest `time` argument |
| StationWaitStats.MaxOf | StationWait.h:13-26 | the max field after a sequence of calls, folded from the default 0; `MaxOfIsMaximum` proves it is the largest `time` argument |
| StationWaitStats.MinOfIsMinimum | StationWait.h:27 | after one or more calls the min field is the smallest `time` argument and is one of them |
| StationWaitStats.MaxOfIsMaximum | StationWait.h:26 | after one or more calls the max field is the largest `time` argument and is one of them |
| StationWaitStats.MinAtMostMax | StationWait.h:26-27 | after one or more calls, min is at most max |
| StationWaitStats.ExtremesMonotone | StationWait.h:26-27 | over successive calls the max never decreases and the min never increases |
| StationWaitStats.MeanUpdate | StationWait.h:23-25 | the average update for the n-th arrival, over the reals: n times the new average equals n - 1 times the old average plus the time |
| StationWaitStats.AverageAfter | StationWait.h:23-25 | the average after a sequence of calls from the default 0, over the reals: it times the number of arrivals is their sum (and `AverageIsMean` gives it as the mean) |
| StationWaitStats.AverageIsMean | StationWait.h:23-25 | the incremental average, computed over the reals, is the arithmetic mean of the `time` arguments (idealised: float rounding is not modelled) |

## Left out

- Input reading is I/O and is not modelled. This covers `read_inputs`, `get_station_link_costs`, `get_station_popularity` and `get_num_trains_per_line`, which call `scanf`. Their results are parameters: the raw line buffers, the cost matrix and the network tables.
- Console printing is rendering and is not modelled: main.c:52-57, main.c:137-155 and the echoes in `read_inputs`.
- `malloc`/`free` setup and teardown (main.c:47-101, main.c:158-219) are memory lifecycle. The per-line train arrays are given as separate arrays.
- The OpenMP lock arrays (main.c:79-101) are initialised but never acquired or released, and they are not modelled. The pragma at main.c:105 is misspelled, so it has no effect and the loop runs sequentially. Each iteration touches only its own train anyway.
- `rand()` and the float popularity (main.c:129) are a foreign random source and float arithmetic. The dwell value is supplied by the caller, per tick, line and train.
- The initial train records (main.c:63) are not modelled, because Train.h, which fixes the field order of the initialiser, is not part of this model.
- LineNetwork.h is not part of this model. `get_line_network`, `get_next_node_index` and `get_station_number` are tables given to the model, with bounds preconditions.
- The width of `time_left` is not known. It is modelled as an unbounded signed integer, so the decrement never overflows. The conversions of the unsigned link cost and of the float dwell value into it are not modelled either.
- The empty branch at main.c:109-111 has no effect and is not modelled.
- `strtok` overwrites delimiters in the buffer with NUL. The model reads the buffer without changing it and states only the tokens returned.
- `strcpy` into the 256-byte name slots (main.c:319-320, main.c:342-343) would overflow for a name of 256 or more characters. The model stores each name as a sequence and does not model that overflow. The 8196-byte `scanf` buffer is I/O and is not modelled either.
- StationLists.GetStationNames: when the list runs out of tokens, the C code copies from a NULL pointer, which is undefined behaviour. The model stops there and reports `ok` false; it does not model what the C program then does.
- StationWaitStats.StationWait.TrainArrive: does not update `average_wait_time`, a float field (StationWait.h:24-25). That update is stated separately over the reals, with an unbounded count, by `MeanUpdate`, `AverageAfter` and `AverageIsMean`.
- `get_station_wait` (StationWait.h:30) is only declared, never defined, and is not modelled.
