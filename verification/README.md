# Ring-buffer pipeline, modelled in Dafny

The Go program in `main.go` reads integers from standard input and passes them
through a chain of goroutines. The first stage drops negative values. The
second drops values that are not non-zero multiples of three. The third pushes
the survivors into `RingBuff`, a bounded buffer that evicts its oldest value
when it is full. Every tick of a ticker, a consumer drains the buffer and
prints the snapshot if it is non-empty.

This project models that core sequentially:

- `window.dfy` (module `Window`) holds `Last(xs, n)`, the last `n` values of
  `xs`. It is the abstract meaning of a bounded eviction buffer.
- `ring.dfy` (module `Ring`) holds the `RingBuff` struct as a datatype
  (`data`, `p`, `size`) and `NewRingBuff`, `Push` and `Get` as functions that
  take a state and return the next one. The shift loop of `Push` is the tail
  recursion `ShiftFrom`. The lemmas tie the concrete array-and-index state to
  `Last`.
- `ring_array.dfy` (module `RingArray`) holds the same buffer in place: a class
  over a fixed `array<int>` with the shift loop and the copy loop of the Go
  code. Each method is proved to end in exactly the state the `Ring` function
  describes.
- `pipeline.dfy` (module `Pipeline`) holds the two stage tests, the generic
  `Filter` stage and `Delivered`, the chain of both filters. It also holds
  `Run`, which plays a sequence of `Submit(v)` and `Tick` events through the
  whole pipeline. Each submitted value travels through every stage before the
  next event.

`NewRingBuff` does not reject a capacity of zero, and the model follows the
code. `NewRingBuff` takes a `nat`, because Go's `make` panics on a negative
length. A zero-capacity buffer can be built, but `Push` on it writes
`data[-1]` and panics, so `Push` requires `size >= 1`.

Go's `nil` slice from `Get` on an empty buffer is the empty sequence. A
non-nil result of `Get` always has at least one element, so the two cases
stay distinguishable by length. Go's `%` truncates toward zero. It is written
out as `GoRem` and proved to agree with Dafny's Euclidean `%` on divisibility.
No other arithmetic is done on the values, so 64-bit wrap-around never arises.

## Model

| member | source | states |
|---|---|---|
| Ring.NewRingBuff | main.go:25-27 | a new buffer has capacity `n`, a zeroed slice of length `n`, `p = -1` and holds nothing |
| Ring.ShiftFrom | main.go:35-37 | the shift loop moves every slot after the first one step to the front and keeps the last slot |
| Ring.Push | main.go:31-42 | keeps `-1 <= p < size` and leaves `p >= 0`; when not full it appends `el` and leaves the held slots alone; when full the contents become the old contents minus the oldest, then `el` |
| Ring.Get | main.go:46-58 | returns exactly the held values in insertion order (empty iff the buffer was empty) and leaves the buffer empty with its slice untouched; on an empty buffer nothing changes |
| Ring.PushAll | main.go:110-121 | pushing a sequence one value at a time keeps the invariant and the capacity, and leaves a non-empty buffer if anything was pushed |
| Ring.PushWindow | main.go:31-42 | one Push is one step of a sliding window: the contents become the last `size` values of the old contents followed by `el` |
| Ring.PushAllWindow | main.go:31-42 | after pushing `xs`, the contents are the last `size` values of the old contents followed by `xs` |
| Ring.PushAllFromEmpty | main.go:25-42 | a new buffer fed `xs` holds the last `min(|xs|, n)` values of `xs`, in order |
| Ring.EvictionOrder | main.go:31-58 | pushing more than `n` values into a new buffer and draining it yields the last `n` of them in their original order |
| Ring.GetTwice | main.go:46-58 | a second Get with no Push in between returns nothing and changes nothing |
| Ring.PushAfterGet | main.go:40-41 | after a drain the next Push leaves exactly that one value |
| Pipeline.GoRem | main.go:98 | Go's remainder by a positive divisor is what is left after the quotient truncated toward zero (`a == m * GoQuo(a, m) + r`): non-negative and below `m` for a non-negative dividend, non-positive and above `-m` for a negative one |
| Pipeline.GoRemZero | main.go:98 | Go's remainder is zero exactly when Dafny's Euclidean remainder is zero |
| Pipeline.DivThreeMeaning | main.go:98-100 | the second stage forwards `d` iff `d` is a non-zero multiple of three |
| Pipeline.Filter | main.go:76-106 | a stage forwards only values that pass its test and never more values than it received |
| Pipeline.FilterAppend | main.go:78-86 | a stage handles each value on its own and in order: filtering a concatenation filters each part |
| Pipeline.FilterKeepsAll | main.go:81-83 | a stage forwards its whole input iff every value passes its test |
| Pipeline.FilterMembers | main.go:80-83 | a value is forwarded iff it was received and passes the test |
| Pipeline.FilterFilter | main.go:67-68 | two stages in a row act as one stage testing both predicates |
| Pipeline.DeliveredPositiveMultiples | main.go:61-72 | the values reaching `buff.Push` are the input's positive multiples of three, in input order |
| Pipeline.Flush | main.go:131-135 | a tick empties the buffer and prints a snapshot iff the buffer held something, and the snapshot is the held values |
| Pipeline.Run | main.go:110-140 | along any sequence of submissions and ticks the buffer keeps its invariant, and every printed snapshot is non-empty and at most capacity long |
| Pipeline.RunSubmits | main.go:67-69 | submitting values prints nothing and has the effect of pushing the delivered values one by one |
| Pipeline.SubmitThenTick | main.go:61-72 | submitting `xs` to a new pipeline, then one tick, prints the last `n` delivered values, or nothing when none got through |
| Pipeline.TickTick | main.go:131-135 | a tick right after a tick prints nothing |
| Pipeline.QuietTick | main.go:80-100 | when every value submitted between two ticks is dropped by the filters, the second tick prints nothing |
| Pipeline.ScenarioFive | main.go:61-72 | capacity 5 fed 3, -3, 6, 9, 12, 15 prints `[3 6 9 12 15]` on the next tick |
| Pipeline.ScenarioThree | main.go:61-72 | capacity 3 fed 3, 6, 9, 12, 15, 18 prints `[12 15 18]` on the next tick |
| RingArray.RingBuffer.ShiftLeft | main.go:35-37 | the in-place shift loop leaves the array equal to `Ring.ShiftFrom` of its old contents |
| RingArray.RingBuffer.Push | main.go:31-42 | the in-place Push keeps the same array and ends in the state `Ring.Push` gives |
| RingArray.RingBuffer.Get | main.go:46-58 | the in-place Get returns what `Ring.Get` returns, copied slot by slot, and ends in the state it gives |

The class `RingArray.RingBuffer` keeps the buffer in a fixed array, as the Go
struct does. Its constructor builds the state of `Ring.NewRingBuff`
(main.go:25-27), and its methods carry the real shift and copy loops.

## Left out

- Goroutines, channels, `select` and the `done` channel with its `close`: the model runs one event at a time, each value passing every stage before the next event. Stopping the pipeline has no sequential effect beyond no further events.
- `sync.Mutex` and the unlocked read of `p` at the start of `Get`: `Push` and `Get` are atomic steps.
- `time.Ticker` and the flush interval: a tick is the event `Tick`. The `fmt.Printf` output is the list of printed snapshots.
- The standard-input loop in `main` (`bufio.Scanner`, `strings.EqualFold` on "exit", `strconv.Atoi`): input parsing and I/O. The model starts from already-parsed integers.
- The package variables `RingBuffSize` and `Duration`: the capacity is a parameter of `NewRingBuff` and `Run`. The interval is not modelled.
- Pipeline.GoRem: models only positive divisors, the only kind the program uses (3).
