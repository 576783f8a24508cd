# sdial: the "speed dial" lock enumerator, modelled in Dafny

`sdial` simulates the Master "Speed Dial" combination lock.

- The lock has four wheels, one per slide direction (up, right, down, left).
- Each wheel has a granular position 0..4 and a shift of -1, 0 or +1. Both are packed into one byte as `pos * 3 + (shift + 1)`.
- A slide in direction `d` does three things, in order:
  - it urges the wheel before `d` to shift -1;
  - it urges wheel `d` to shift 0;
  - it urges the wheel after `d` to shift +1.
- A wheel whose shift is already at or beyond the target steps its position forward, wrapping from 4 back to 0.

The program enumerates every move sequence of 1 .. max slides. It replays each one on a fresh lock and gathers the results per final lock state: how many sequences reach the state, the first one found, and all of them. It then reports:

- the number of unique states;
- the number of duplicate sequences;
- the list of states, ordered by count, then by the length of their first sequence, then by lock (a stable sort by length followed by a stable sort by count);
- the entries that share the smallest count.

The model is five modules, one per part of the program:

- `Wheels` (wheels.dfy): the packed wheel. It is a value datatype, because a wheel is a `Copy` byte.
- `Locks` (locks.dfy): directions, `prior`/`next`, the slide as a function on lock values, and the lock ordering the results map is keyed by. The `Lock` class holds the wheel array, which its `Slide` and `Reset` methods update in place.
- `Moves` (moves.dfy): the numbering of move sequences. Sequence number `binary` of length n has move i equal to `(binary >> 2i) & 3`. It also states the order in which lengths and numbers are visited.
- `Enumeration` (enumeration.dfy): the nested loops of the program. They replay each sequence on a `Lock`, keyed by final state, and record it into a map. The methods are proved to build exactly `Aggregate(Sequences(max), Replay)`. This is a function that records the visited sequences one after another. The lemmas about it are stated for any `reach` function and used with `Replay`.
- `Reporting` (reporting.dfy): the statistics, the map's in-order listing, the two stable in-place sorts on an array, and the selection of the best entries. `Run` ties it all together.

Two facts about the code shape the model:

- A slide advances only `prior(d)`, `d` and `next(d)` (src/main.rs:209-213). The wheel opposite `d` is untouched; see `Locks.SlideEffect`.
- The code reads `moves[0]` unconditionally (src/main.rs:99), which panics for `max == 0`, so `Reporting.Run` requires `max >= 1`.

## Model

| member | source | states |
|---|---|---|
| Wheels.Wheel.Pos | src/main.rs:145-147 | The granular position `code / 3`. `NewRoundTrip` and `PartsRoundTrip` show it is 0..4 on a legal wheel and recovers the position a wheel was packed with |
| Wheels.Wheel.Shift | src/main.rs:149-151 | The shift `code % 3 - 1`. `NewRoundTrip` and `PartsRoundTrip` show it is -1..1 on a legal wheel and recovers the shift a wheel was packed with |
| Wheels.Wheel.New | src/main.rs:137-139 | Packing a position 0..4 and a shift -1..1 gives a legal wheel, code 0..14 |
| Wheels.NewRoundTrip | src/main.rs:137-151 | `pos(new(p, s)) == p` and `shift(new(p, s)) == s` for every legal p and s |
| Wheels.PartsRoundTrip | src/main.rs:141-151 | Every legal wheel unpacks to a position 0..4 and a shift -1..1, and repacking them gives the same wheel |
| Wheels.Neutral | src/main.rs:153-156 | The reset wheel is legal, with code 1 |
| Wheels.NeutralParts | src/main.rs:153-156 | The reset wheel is at position 0 with shift 0 |
| Wheels.Wheel.Advance | src/main.rs:158-174 | Advancing a legal wheel keeps it legal (code 0..14) |
| Wheels.AdvanceRule | src/main.rs:158-174 | After advancing, the shift is the target. The position is unchanged when the old shift was strictly below the target, and is otherwise `(pos + 1) mod 5` |
| Wheels.WheelEquality | src/main.rs:133-134 | The derived equality: two legal wheels are equal exactly when position and shift agree |
| Wheels.CodeOrder | src/main.rs:133-134 | The derived byte order of legal wheels is position first, then shift |
| Locks.Prior | src/main.rs:223-229 | `prior(d)` is `(d + 3) mod 4`, a direction again |
| Locks.Next | src/main.rs:231-237 | `next(d)` is `(d + 1) mod 4`, a direction again |
| Locks.PriorNext | src/main.rs:223-237 | `prior` and `next` undo each other; `prior(d)`, `d` and `next(d)` are pairwise distinct |
| Locks.Opposite | src/main.rs:209-213 | The wheel `(d + 2) mod 4` is none of the three wheels a slide moves |
| Locks.Initial | src/main.rs:200-205 | The reset lock is four legal, neutral wheels |
| Locks.SlideState | src/main.rs:209-213 | A slide keeps every wheel legal |
| Locks.SlideEffect | src/main.rs:209-213 | Wheels `prior(d)`, `d` and `next(d)` get shifts -1, 0 and +1, each with the advance rule's position. The opposite wheel is unchanged |
| Locks.FirstSlideUp | src/main.rs:209-213 | Sliding up from the reset lock gives codes (4, 2, 1, 3) |
| Locks.Replay | src/main.rs:50-57 | Sliding a fresh lock through any moves leaves a legal four-wheel state |
| Locks.ReplaySnoc | src/main.rs:53-57 | Replaying one more move is one more slide of the lock reached so far |
| Locks.LockLess | src/main.rs:194-197 | The derived `Ord` of locks: lexicographic on the wheels' codes. `LockLessIrreflexive`, `LockLessTransitive` and `LockLessTotal` show it is a strict total order on four-wheel locks |
| Locks.LockLessIrreflexive | src/main.rs:194-197 | The derived lock ordering is irreflexive |
| Locks.LockLessTransitive | src/main.rs:194-197 | The derived lock ordering is transitive |
| Locks.LockLessTotal | src/main.rs:194-197 | Any two distinct four-wheel locks are ordered one way or the other |
| Locks.Lock.constructor | src/main.rs:200-205 | `Lock::new` is a fresh lock in the reset state |
| Locks.Lock.Slide | src/main.rs:209-213 | The in-place slide leaves the lock in `SlideState` of its old state, still legal |
| Locks.Lock.Reset | src/main.rs:215-220 | Resetting in place makes every wheel neutral |
| Moves.Pow4Fits | src/main.rs:48-49 | For lengths up to 31 the loop bound `1 << 2n` is at most 2^62, so it fits the 64-bit integer it is computed in |
| Moves.Encode | src/main.rs:49 | A sequence of n moves has a number below `4^n`, the loop bound of its length |
| Moves.Decode | src/main.rs:51-56 | The length-n sequence numbered `binary` has n moves. `DecodeDigit` shows move i is `(binary >> 2i) & 3`; `DecodeEncode` and `EncodeDecode` show it is the inverse of `Encode` |
| Moves.DecodeDigit | src/main.rs:51-56 | Move i of the sequence numbered `binary` is `(binary >> 2i) & 3` |
| Moves.DecodeSnoc | src/main.rs:53-56 | Taking one more digit appends the low two bits of `tmp` and shifts `tmp` right by two |
| Moves.DecodeEncode | src/main.rs:49-57 | Every move sequence is the decoding of its own number, so every sequence of length n is visited |
| Moves.EncodeDecode | src/main.rs:49-57 | Distinct numbers below `4^n` give distinct sequences, so no sequence is visited twice |
| Moves.TotalClosedForm | src/main.rs:48-49 | `3 * (4 + 4^2 + ... + 4^max) == 4^(max+1) - 4` |
| Moves.SequencesShape | src/main.rs:48-53 | Exactly `4 + ... + 4^max` sequences are visited, each of length 1 .. max (never empty) |
| Moves.SequencesOrder | src/main.rs:48-49 | Lengths are visited in increasing order, and within a length the numbers increase |
| Moves.SequencePosition | src/main.rs:48-49 | A sequence of length n is visited at the index after all shorter ones plus its own number |
| Moves.SequenceIndex | src/main.rs:48-49 | Some index of the visiting order holds each sequence of 1 .. max moves |
| Moves.SequencesComplete | src/main.rs:48-53 | A sequence is visited exactly when its length is 1 .. max |
| Moves.SequencesDistinct | src/main.rs:48-57 | Two different positions of the visiting order hold different sequences |
| Moves.Letter | src/main.rs:256-262 | Moves 0, 1, 2, 3 print as U, R, D, L |
| Moves.Render | src/main.rs:253-265 | A move sequence prints as one letter per move, in order |
| Moves.RenderInjective | src/main.rs:253-265 | Different move sequences print differently |
| Enumeration.Record | src/main.rs:64-70 | The `entry(..).or_insert_with` / `push` / `count += 1` step. `RecordStep` states it as the loop performs it |
| Enumeration.Aggregate | src/main.rs:48-72 | The map the loops build. `AggregateIsReaching` shows its keys are exactly the reached states, each with the count, first and list of the sequences reaching it |
| Enumeration.AggregateSnoc | src/main.rs:64-70 | Visiting one more sequence records it into the map built so far |
| Enumeration.RecordStep | src/main.rs:64-70 | A new state's entry starts at count 0 with this sequence as first and no sequences; then the sequence is appended and the count incremented |
| Enumeration.AggregateIsReaching | src/main.rs:64-70 | A state is a key exactly when some visited sequence reaches it. Its entry is the count, first and list of those sequences in visiting order |
| Enumeration.EntryConsistent | src/main.rs:117-126 | In every entry (a `Target`: count, first sequence, all sequences) `count == len(all) >= 1` and the first sequence is `all[0]`. Each listed sequence was visited and replays to the key |
| Enumeration.Filed | src/main.rs:64-70 | Every visited sequence is listed under the state it reaches |
| Enumeration.KeyReached | src/main.rs:64-70 | Every key is reached by some visited sequence |
| Enumeration.FirstRecorded | src/main.rs:64-68 | An entry's first sequence is visited no later than any other sequence reaching that state |
| Enumeration.FirstIsShortest | src/main.rs:48-68 | The recorded first sequence of a state is a shortest sequence reaching it. Among those of its length, it has the smallest number |
| Enumeration.ResultsAreReachable | src/main.rs:48-72 | The keys are exactly the states reached by some sequence of 1 .. max moves |
| Enumeration.VisitStep | src/main.rs:64-70 | Updating the entry for sequence number `binary` gives the map of the visited sequences up to and including it |
| Enumeration.ReplayNumber | src/main.rs:50-57 | The inner loop builds sequence number `binary` of length n and leaves the fresh lock in that sequence's replayed state |
| Enumeration.Visit | src/main.rs:50-70 | One iteration of the middle loop records sequence number `binary` into the map |
| Enumeration.EnumerateLength | src/main.rs:49-71 | The middle loop records all `4^(moves+1)` sequences of length `moves + 1` in order |
| Enumeration.Enumerate | src/main.rs:48-72 | The whole loop builds exactly the map of all sequences of 1 .. max moves, recorded in visiting order |
| Reporting.MinKey | src/main.rs:83 | Returns the key below every other key in the derived lock ordering |
| Reporting.Collect | src/main.rs:83 | `all.iter()` lists every (key, value) pair of the map exactly once, in increasing key order |
| Reporting.ReplayKeys | src/main.rs:194-197 | Every key of the results is a four-wheel state |
| Reporting.CountsPositive | src/main.rs:80 | Every listed count is at least one, so `count - 1` does not underflow |
| Reporting.Dups | src/main.rs:80 | The sum of `count - 1` over the entries. `DupsAndUniques` and `Tally` show uniques plus dups is the number of sequences visited |
| Reporting.DupsAndUniques | src/main.rs:77-80 | The number of entries plus the sum of `count - 1` over them is the sum of their counts |
| Reporting.CountsAddUp | src/main.rs:77-80 | Over a key-ordered listing of the map, the counts add up to the number of visited sequences |
| Reporting.Tally | src/main.rs:77-81 | "Uniques" is the map's size, and uniques plus dups is the number of sequences visited |
| Reporting.FirstLength | src/main.rs:84 | The first sort's key, the length of the first sequence. `Rank` states the list is ordered by it among equal counts |
| Reporting.Count | src/main.rs:85 | The second sort's key, the count. `Rank` states the list is ordered by it first |
| Reporting.StableSort | src/main.rs:84-85 | The in-place stable sort permutes the entries into key order, with equal keys kept in their previous order |
| Reporting.Insert | src/main.rs:84-85 | One insertion round extends the sorted prefix by one entry, permuting only the first i + 1 entries and leaving the rest in place |
| Reporting.Rank | src/main.rs:83-85 | After both sorts the list is a permutation of the key-ordered listing. It is ordered by count, then by first-sequence length, then by lock |
| Reporting.ListsPermuted | src/main.rs:83-85 | A reordering of a listing of the map still lists it |
| Reporting.SortedUnique | src/main.rs:83-85 | A list in the report's order is determined by which entries it holds |
| Reporting.ReportDeterministic | src/main.rs:83-85 | Any two listings of the map in the report's order are equal, so the report does not depend on the traversal order |
| Reporting.SelectBests | src/main.rs:99-115 | The bests are a non-empty prefix of the sorted list with the first entry's count. There is exactly one unless all bests are wanted; otherwise the prefix stops only at the end or at a different count |
| Reporting.BestsAreLeast | src/main.rs:99-115 | The bests have the smallest count. When all bests are wanted, they are every entry with that count |
| Reporting.Run | src/main.rs:48-115 | The unique and duplicate numbers sum to `4 + ... + 4^max`. The list is every result, ordered by count, first length and lock. The bests are its leading entries with the minimal count: exactly one, or all of them when all bests are wanted |

## Left out

- Command-line parsing (src/main.rs:12-46) belongs to the `clap` library. `Reporting.Run` takes `max` and `showBests` as parameters. The `dups` and `all` flags only choose what is printed.
- All console output is left out. This covers the `println!` lines (src/main.rs:74-115) and the `Display` of wheels and locks (src/main.rs:177-191, 239-249). Of the `Display` of move sequences, only the letter mapping is modelled, as `Moves.Render`.
- Enumeration.Enumerate: requires `max <= 31`, and `Reporting.Run` inherits this. The loop bound `1 << 2*(moves+1)` is a 64-bit shift that overflows for longer sequences, and that overflow is not modelled. `Moves.Pow4Fits` shows the bound is representable up to 31.
- Reporting.Run: requires `max >= 1`, because the code panics indexing the empty sorted list when `max == 0`.
- Wheels.Wheel.New: requires a position 0..4 and a shift -1..1. The `u8` arithmetic of `Wheel::new` and `Wheel::set` on other arguments, which would overflow or wrap, is not modelled. Every caller passes legal values.
- `Wheel::set`, `Wheel::reset` and `Wheel::advance` mutate a wheel through `&mut self`. A wheel is a `Copy` byte held inside the lock's array. The model computes the new wheel as a value (`Wheels.Wheel.New`, `Wheels.Neutral`, `Wheels.Wheel.Advance`) and `Locks.Lock` writes it back into its array slot. No aliasing is lost.
- The map is a Dafny `map` rather than a balanced tree. Its in-order traversal is modelled by `Reporting.Collect`, which repeatedly takes the least remaining key.
- `sort_by` and `sort_by_key` are the standard library's stable merge sort. The model uses a stable insertion sort by adjacent swaps. A stable sort's result is uniquely determined (`Reporting.SortedUnique`), so both sorts give the same list.
- Counts and the duplicate sum are unbounded naturals. `usize` overflow is not modelled; it would need far more sequences than a 64-bit bound allows.
- The memory and time of storing every colliding sequence are not modelled.
