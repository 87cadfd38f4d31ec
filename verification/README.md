# Verified models of six C exercises

This project models the parts of the repository that carry real algorithms and proves what
they are for. Each exercise has its own modules; within an exercise one module holds the
mathematics (values, functions, lemmas) and another the code as it runs (methods with loops,
classes with fields and arrays), every method proved against the functions of the first.

| exercise | modules |
|---|---|
| HW09, CRC-32 of a file | `ShiftRegister`, `Words`, `Crc32Table`, `Crc32` |
| HW01, ZIP archives glued behind a JPEG | `ZipFormat`, `ZipReader`, `ZipRoundTrip` |
| HW17, the 2048 game | `Boards2048`, `Play2048`, `Game2048` |
| HW10, parallel log statistics | `LogStats`, `LogParse`, `LogParallel`, `LogParser` |
| HW03, hash table and word count | `HashSlots`, `HashRange`, `HashAsWritten`, `HashTableAsWritten`, `HashRuns`, and the corrected `HashCorrected`, `HashTableCorrected` |
| HW14, mouse driver | `MouseFifo`, `MouseRing` |

`Basics` holds what several of them share. `dafny verify dfyconfig.toml` checks everything.

## What is proved

**CRC-32.** The 256 literal entries of the table are what a 32-bit shift register with the
polynomial 0xEDB88320 (section 8 of RFC 1952, section 8.1.1.6.2 of ITU-T V.42) makes of their
indices, so the table-driven loop equals the bit-serial register for every start state and
every message. The register in turn holds the unique remainder of a division of polynomials
over GF(2). From this follow linearity, injectivity in the state, exactly which errors go
unnoticed, detection of every error confined to 32 consecutive bits, reachability of every
state by exactly one four-byte ending, and the constant residue of a message followed by its own checksum. The chunked loop of
`get_crc32` computes the checksum of the part of the file that could be mapped.

**ZIP.** `find_eocdr` returns the record with the shortest comment that matches its stored
length. Once the loop of `zip_read` has accepted the members, every assertion of `zip_member`
holds, the listing visits exactly the accepted headers and stops exactly at `members_end`, and
all slices lie inside the view. Which members pass is stated by the raw bytes. What stands in
front of an archive does not matter, and a file that ends in an archive written for any members
is opened as that archive, and lists what was written, if and only if the reader supports every
member, no shorter tail of the file is a matching end record and its own end record is not at
offset 0.

**2048.** `slideAndMergeRow` for a row of any width is characterised by an independent
description of which tiles merge; the four moves slide rows and columns towards the side they
are named after, conserve the sum, report a change exactly when there is one, and leave room
for the next tile. `canMove` is exact. The game loop does what the letters typed say, one by one. A play is a
state machine: tiles are powers of two up to 2048, the test for exactly 2048 misses nothing,
and a play on the 4 by 4 board has at most 8191 effective moves, at least 510 of them if it is
won.

**Log statistics.** For every list of files, every number of threads and every interleaving
of thread steps with creation and joining, the merged statistics equal those of one sequential
pass. No schedule deadlocks, and all runs to the end have the same length. Round-robin dealing
loses no file. The parser ignores every line but those of one exact shape, reads back what a
combined-log line was rendered from, and a file of such lines adds up to the sizes and mentions
they record.

**Hash table.** Both the table as written and a corrected one. As written: `size` never
undercounts, a free slot always remains for the cyclic probe of `add_element`, a lookup reads
past the end of the array under an exact condition, and `add_element` goes on storing a map if
and only if it does not rehash elements with equal new homes. `hash_string` stays in the range
of `long long` if and only if the word has at most ten characters. The whole word count runs
without overflow, inside the array, and right if and only if the words meet a condition that
can be checked before the run (`HashRuns.ProgramRightIff`): no word has more than ten
characters, and, with the distinct words in the order of their first occurrence, in every table
of 10 * 2^j slots they come to the first 7 * 2^j + 1 of them fit without going around the end
(no more words have their home in the last places than there are such places), and if there are
that many, no two of them have the same home in the next table. Concrete inputs show all three
failures. The corrected table counts every word sequence exactly, whatever the length of the
words, as it reduces the hash while computing it.

**Mouse driver.** The ring is a first-in first-out queue of `buffer_size - 1` bytes over every
interleaving of timer, reader and writer, with conservation of bytes even when user memory
faults.

## Where the code does something else than intended

The models follow the code.

- `get_element` does not wrap its index while `add_element` does
  (HW03-Hash/src/hash.c:41-44 and 68): `HashTableAsWritten.ReadsPastTheEnd` has two words that
  make it leave the array. A run that does so is `Undefined` in the model.
- `rehash` writes every element to its new home and overwrites what is there
  (HW03-Hash/src/hash.c:90-96): `HashTableAsWritten.RehashLosesWord`.
- `hash_string` overflows `long long` on every word of more than ten characters
  (HW03-Hash/src/hash.c:10-13), while `main` reads words of up to 99. That is undefined; where
  it wraps around silently the hash can become negative, and `hash_string(key) % capacity` an
  index in front of the array (HW03-Hash/src/hash.c:39-40): `HashRange.LongWordWraps` has the
  word "understanding", whose index is -6, and `HashRuns.LongWordOverflows` shows that nothing
  else is wrong with it.
- `HashCorrected` and `HashTableCorrected` change exactly these three places: the lookup wraps,
  rehashing probes as `add_element` does, and the hash is reduced by the capacity with every
  letter, which yields the same home without large numbers.
- `zip_read` never compares the claimed archive length, a sum in 32 bits, with the place of the
  end record (HW01-Zipjpeg/src/zip.c:157-158). When the claim is too long the view would start
  at a negative index. The model follows the subtraction and returns `OutsideBuffer` when the
  start is negative, which is so exactly when the claimed length exceeds the offset of the end
  record (`ZipFormat.OutsideExactly`, example `ZipRoundTrip.ViewLeavesBuffer`).
- `find_eocdr` returns 0 both for "not found" and for a record at offset 0, so an archive
  without members that is the whole file is rejected (`ZipRoundTrip.EmptyArchiveRejected`).
- `mouse_write` fetches the user byte before it looks whether the ring is full, so an
  unreadable byte behind the last one that fits turns the whole call into -EFAULT although the
  bytes before it stay in the ring (HW14-driver/mouse_driv.c:95-105):
  `MouseFifo.FaultBehindRoom`.
- `main` of HW09 takes the checksum 0 for a failure to open the file, so it does not report the
  checksum of every file it can read: `Crc32.ReportChecksum` says when it does, and
  `Crc32.ZeroChecksum` decides for all messages which have checksum 0.
- `canMove` says yes on an empty board, where no move changes anything
  (`Boards2048.CanMoveExact`); no such board occurs in a play (`Play2048.GameOverExact`).
- A log line whose size is "-" is not counted at all, not even its URL
  (`LogParse.DashIgnored`).

## Model

| member | source | states |
|---|---|---|
| Crc32Table.TableIsRegister | HW09-CRC32/src/crc32.h:14-58 | each of the 256 literal entries is the register after the eight bits of its index |
| Crc32.StepRegister | HW09-CRC32/src/crc32.h:63 | one table lookup is eight bit-serial steps, from any state |
| Crc32.CrcIsRegister | HW09-CRC32/src/crc32.h:60-66 | table-driven equals bit-serial for every start state and message |
| Crc32.CrcConcat | HW09-CRC32/src/crc32.h:60-66 | the checksum of a concatenation continues from the state after the first part |
| Crc32.Crc32 | HW09-CRC32/src/crc32.h:60-66 | the loop leaves the register the bit-serial form leaves |
| Crc32.GetCrc32 | HW09-CRC32/src/crc32.h:78-106 | 0 if the file cannot be opened, otherwise the checksum of the part of the file covered by the successful mappings, independent of the chunks |
| Crc32.SeenBytes | HW09-CRC32/src/crc32.h:90-101 | each successful mapping shows up to 16777216 bytes, so that part is the whole file as soon as the mappings reach its end |
| ShiftRegister.FeedLinear | HW09-CRC32/src/crc32.h:60-66 | the register is linear in state and input together |
| ShiftRegister.FeedInjective | HW09-CRC32/src/crc32.h:60-66 | different states stay different under the same input bits |
| ShiftRegister.BurstDetected | HW09-CRC32/src/crc32.h:60-66 | inputs that differ only inside a window of 32 bits leave different registers |
| ShiftRegister.RemainderUnique | HW09-CRC32/src/crc32.h:14-66 | division by the generator polynomial has one quotient and one remainder |
| ShiftRegister.RegisterIsRemainder | HW09-CRC32/src/crc32.h:14-66 | the register holds the remainder, the fed-back bits are the quotient |
| Crc32.CrcIsPolynomialRemainder | HW09-CRC32/src/crc32.h:14-66 | a word is the checksum register if and only if it is that remainder |
| Crc32.CheckValue | HW09-CRC32/src/crc32.h:14-66 | the checksum of the digits 1 to 9 is 0xCBF43926, the published check value of this CRC |
| Crc32.BurstErrorDetected | HW09-CRC32/src/crc32.h:14-66 | different messages of equal length that differ only inside 32 consecutive bits get different values from every start state |
| ShiftRegister.UndetectedExactly | HW09-CRC32/src/crc32.h:60-66 | inputs of equal length leave the same register if and only if their difference, shifted by 32, is a multiple of the generator |
| Crc32.ErrorUndetectedExactly | HW09-CRC32/src/crc32.h:14-66 | the same for messages: exactly which errors go unnoticed, from every start state |
| Crc32.CrcInjective | HW09-CRC32/src/crc32.h:60-66 | different states never become equal under the same bytes |
| Crc32.MessageBitsInjective | HW09-CRC32/src/crc32.h:61-63 | messages of equal length with the same bits are the same bytes |
| Crc32.Ending | HW09-CRC32/src/crc32.h:60-66 | four bytes that take any state to any other |
| Crc32.EndingUnique | HW09-CRC32/src/crc32.h:60-66 | endings of equal length up to four bytes with the same result are equal |
| Crc32.ZeroEnding | HW09-CRC32/src/crc32.h:60-66 | a message continued by four bytes has checksum 0 for exactly one ending |
| Crc32.ShortMessageMoves | HW09-CRC32/src/crc32.h:60-66 | no message of one, two or three bytes has checksum 0 |
| Crc32.ZeroChecksum | HW09-CRC32/src/main.c:16-19 | a message has checksum 0 if and only if it is empty or has at least four bytes, the last four being the one ending that takes the state before them to all ones |
| Crc32.ReportChecksum | HW09-CRC32/src/main.c:16-21 | `main` reports the checksum of the mapped part of a file it can open if and only if that part is no such message |
| Crc32.TrailerCheck | HW09-CRC32/src/crc32.h:78-106 | four more bytes bring the register to 0xDEBB20E3 if and only if they are the little-endian checksum of the message |
| Boards2048.MergeMeaning | HW17-2048/src/main.c:83-89 | the merged tiles are the only list that pairs equal neighbours from the left, uses every tile once, and merges no merged tile again |
| Boards2048.TilesInOrder | HW17-2048/src/main.c:74-81 | compacting keeps every non-empty cell once, in order, and nothing else |
| Boards2048.SlideMeaning | HW17-2048/src/main.c:72-106 | a row is the slide of another if and only if it holds such merged tiles at its start and is empty behind them |
| Boards2048.SlideConservesSum | HW17-2048/src/main.c:72-106 | a move conserves the sum of a row of any width |
| Boards2048.SlideEntries | HW17-2048/src/main.c:72-106 | only old tiles, doubled old tiles and empty cells occur |
| Boards2048.SlideFixed | HW17-2048/src/main.c:98-105 | a row stays as it is if and only if its tiles are packed and no two neighbours are equal |
| Boards2048.ChangedRowHasRoom | HW17-2048/src/main.c:72-106 | a row that changes has an empty cell afterwards |
| Boards2048.MoveLines | HW17-2048/src/main.c:108-157 | row i of the left move is the slide of row i, of the right move the reversed slide of the reversed row; column j of the moves up and down likewise |
| Boards2048.ReverseAt | HW17-2048/src/main.c:121-127 | reversing a row puts its k-th cell from the end at k |
| Boards2048.MoveFixed | HW17-2048/src/main.c:108-157 | a board stays as it is if and only if its view stays under the left move |
| Boards2048.EffectiveMoveShows | HW17-2048/src/main.c:51-62 | if some move changes the board `canMove` holds |
| Boards2048.CanMoveExact | HW17-2048/src/main.c:51-62 | `canMove` holds if and only if some move changes the board or the board is empty |
| Play2048.MoveConservesTotal | HW17-2048/src/main.c:108-157 | each of the four moves conserves the total of the board |
| Play2048.MoveEntries | HW17-2048/src/main.c:108-157 | a move makes only old and doubled tiles |
| Play2048.EffectiveMoveLeavesRoom | HW17-2048/src/main.c:184-185 | after a move that changed something there is a cell for the new tile |
| Play2048.RoomForTile | HW17-2048/src/main.c:36-40 | with an empty cell a tile can land |
| Play2048.TileAddedTotal | HW17-2048/src/main.c:26-41 | a tile that lands adds 2 to 4 to the total |
| Play2048.PlayLegal | HW17-2048/src/main.c:159-187 | every tile of every board of a play is a power of two between 2 and 2048 |
| Play2048.WinTestExact | HW17-2048/src/main.c:64-70 | on every board of a play the test for exactly 2048 agrees with "some tile is at least 2048" |
| Play2048.PlayTotal | HW17-2048/src/main.c:159-187 | after k effective moves the total lies between 4 + 2k and 8 + 4k |
| Play2048.PlayBounded | HW17-2048/src/main.c:159-187 | a play on n by n cells has fewer than 512 n^2 effective moves |
| Play2048.GameOverExact | HW17-2048/src/main.c:164-171 | on a board of a play that is not won `canMove` holds if and only if another turn exists |
| Play2048.GameBounds | HW17-2048/src/main.c:159-187 | at most 8191 effective moves on the 4 by 4 board, and at least 510 to win |
| Game2048.Compact | HW17-2048/src/main.c:74-81 | the tiles in order, then empty cells |
| Game2048.MergePass | HW17-2048/src/main.c:83-89 | the pass in place leaves the merged tiles with holes and reports whether it merged |
| Game2048.WriteBack | HW17-2048/src/main.c:98-103 | the row becomes the result, and whether it differed |
| Game2048.SlideAndMergeRow | HW17-2048/src/main.c:72-106 | compact, merge, compact and write back is the move of a row, and the flag is set if and only if the row changed |
| Game2048.ViewPlace | HW17-2048/src/main.c:121-127 | writing back one cell through the indices of a move writes one place of one line as the move sees it |
| Game2048.Game.MoveTiles | HW17-2048/src/main.c:108-157 | the board becomes that of the move, whose rows and columns `Boards2048.MoveLines` describes, and the flag is set if and only if the board changed |
| Game2048.Game.FindEmpty | HW17-2048/src/main.c:27-35 | all empty cells, row by row |
| Game2048.EmptyFromComplete | HW17-2048/src/main.c:29-35 | no empty cell is missed |
| Game2048.EmptyFromSorted | HW17-2048/src/main.c:29-35 | they are listed row by row and each only once |
| Game2048.AddTileIsRandom | HW17-2048/src/main.c:36-40 | over all values of `rand`, the boards produced are exactly those with a 2 or a 4 on one empty cell |
| Game2048.DiceTile | HW17-2048/src/main.c:36-39 | the first random value modulo the number of empty cells selects the cell; the tile is a 4 if the second is a multiple of ten, else a 2 |
| Play2048.PlaceAt | HW17-2048/src/main.c:39 | one cell gets the tile and every other keeps its own |
| Game2048.Game.AddRandomTile | HW17-2048/src/main.c:26-41 | the board gets the tile the two random values choose, or stays if it is full |
| Game2048.Game.InitBoard | HW17-2048/src/main.c:43-49 | an empty board with the two tiles of the first two pairs of random values |
| Game2048.Game.TestCanMove | HW17-2048/src/main.c:51-62 | the two loops decide whether a cell is empty or two neighbours are equal |
| Game2048.Game.TestWin | HW17-2048/src/main.c:64-70 | the two loops decide whether 2048 is on the board |
| Game2048.EffectiveKeyShows | HW17-2048/src/main.c:184-185 | a move that changes the board is followed by a tile, and the board afterwards is not the one before |
| Game2048.Game.PlayMove | HW17-2048/src/main.c:178-185 | a move and, if it changed the board, the tile of the two random values |
| Game2048.Game.PlayKey | HW17-2048/src/main.c:175-185 | w, a, s and d and their capitals move up, left, down and right, every other key changes nothing; the flag tells whether the board changed, which is then a turn of the state machine |
| Game2048.Game.GameLoop | HW17-2048/src/main.c:159-187 | for all keys and random values: the boards behind the keys are, one by one, what each key makes of the board before; those that change are a play; won and lost mean what the two tests say, and waiting that every key was read |
| MouseFifo.Conservation | HW14-driver/mouse_driv.c:42-108 | over every interleaving, with or without faults, bytes stored are bytes taken followed by the queue |
| MouseFifo.HistoryGrows | HW14-driver/mouse_driv.c:42-108 | later critical sections only extend what was stored and taken |
| MouseFifo.FirstInFirstOut | HW14-driver/mouse_driv.c:42-108 | the k-th byte ever taken is the k-th byte ever stored |
| MouseFifo.WithoutFaults | HW14-driver/mouse_driv.c:74-108 | without faults a write stores min(length, room), a read takes min(length, available), and both return that count |
| MouseFifo.WriteStores | HW14-driver/mouse_driv.c:91-108 | on n places with q bytes queued a readable write appends all its bytes if they are at most n - 1 - q, else the first n - 1 - q, and returns their number |
| MouseFifo.TimerStores | HW14-driver/mouse_driv.c:62-69 | the same for an event of the timer |
| MouseFifo.WrittenIsRead | HW14-driver/mouse_driv.c:74-108 | fewer than n bytes written to an empty ring of n places are read back exactly |
| MouseFifo.WriteFaults | HW14-driver/mouse_driv.c:95-105 | a write fails if and only if a byte cannot be read that is at most as far behind as there is room |
| MouseFifo.FaultBehindRoom | HW14-driver/mouse_driv.c:95-105 | when exactly the bytes that fit are readable, all of them are stored and the call still reports a fault |
| MouseFifo.FaultInWrite | HW14-driver/mouse_driv.c:95-105 | the bytes in front of the first unreadable one stay stored |
| MouseFifo.ReadFaults | HW14-driver/mouse_driv.c:79-85 | a read fails if and only if one of the places it would fill cannot be written |
| MouseFifo.FaultInRead | HW14-driver/mouse_driv.c:79-85 | the bytes in front of the first such place have left the queue |
| MouseFifo.ReadSplit | HW14-driver/mouse_driv.c:74-89 | two fault-free reads take the same bytes as one of the summed length, and their counts add up to its count |
| MouseRing.PutBetween | HW14-driver/mouse_driv.c:66-67 | storing at head appends to the bytes between tail and head, around the end |
| MouseRing.TakeBetween | HW14-driver/mouse_driv.c:80-84 | advancing tail drops the first of them |
| MouseRing.Ring.Empty | HW14-driver/mouse_driv.c:39 | `BUF_EMPTY` holds if and only if nothing is queued |
| MouseRing.Ring.Full | HW14-driver/mouse_driv.c:40 | `BUF_FULL` holds if and only if `buffer_size - 1` bytes are queued |
| MouseRing.Ring.constructor | HW14-driver/mouse_driv.c:146-151 | a fresh ring is empty |
| MouseRing.Ring.Simulate | HW14-driver/mouse_driv.c:62-69 | the event is appended as far as there is room |
| MouseRing.Ring.Read | HW14-driver/mouse_driv.c:74-89 | what is copied leaves the queue, stops before a fault, and the rest of the user buffer is untouched |
| MouseRing.Ring.Write | HW14-driver/mouse_driv.c:91-108 | the readable bytes that fit are appended, and the count or the fault is returned |
| MouseRing.Ring.Serve | HW14-driver/mouse_driv.c:42-108 | any interleaving on the ring does what the queue state machine does: the same queue, the same bytes handed out, the same values returned |
| Basics.DoubledMeaning | HW03-Hash/src/hash.c:85 | the capacities reached by doubling, here and in HW10-LogParser/src/main.c:37, are the first one times the powers of two |
| HashSlots.OccupiedFree | HW03-Hash/src/hash.c:67-70 | there is a free slot if and only if fewer slots are taken than there are |
| HashSlots.ProbeDecides | HW03-Hash/src/hash.c:39-45 | under the probing invariant a probe ends at the key if and only if the key is stored |
| HashSlots.InsertKeeps | HW03-Hash/src/hash.c:65-74 | storing a new key where its probe ends keeps the invariant and extends the map |
| HashSlots.UpdateKeeps | HW03-Hash/src/main.c:30 | counting up in place keeps the invariant and changes one value |
| HashAsWritten.OverwrittenSlot | HW03-Hash/src/hash.c:90-96 | after `rehash` a slot holds the last old element with that new home and nothing else |
| HashAsWritten.RehashWithoutClash | HW03-Hash/src/hash.c:80-100 | without equal new homes nothing is lost |
| HashAsWritten.OverwrittenHeld | HW03-Hash/src/hash.c:90-96 | rehashing never increases what is held under a key |
| HashAsWritten.OverwrittenLoses | HW03-Hash/src/hash.c:90-96 | two elements with the same new home make some key lose what it held |
| HashAsWritten.LookupOffEnd | HW03-Hash/src/hash.c:39-45 | a lookup leaves the array if and only if all slots from the home on are taken by other keys |
| HashAsWritten.LookupDecides | HW03-Hash/src/hash.c:37-46 | a lookup that stays inside decides membership |
| HashAsWritten.AddedWellsized | HW03-Hash/src/hash.c:63-100 | `add_element` keeps taken slots at most `size` and `size` at most 0.7 of the capacity 10 2^k, so a free slot remains |
| HashAsWritten.FrequenciesCount | HW03-Hash/src/main.c:25-32 | the counts to be reached: exactly the words that occur, each with its number of occurrences |
| HashAsWritten.CountsExact | HW03-Hash/src/main.c:25-32 | while no rehash clashed the table stores the exact counts |
| HashAsWritten.HeldAtMost | HW03-Hash/src/main.c:25-32 | no word is ever counted too often |
| HashAsWritten.LossIsForever | HW03-Hash/src/main.c:25-32 | after a clash some word stays counted too rarely |
| HashAsWritten.AddedExactly | HW03-Hash/src/hash.c:63-100 | one `add_element` of a new key goes on storing the map if and only if it does not rehash elements with equal new homes |
| HashAsWritten.RepresentsUnlessLost | HW03-Hash/src/main.c:25-32 | what one rehash has lost never comes back: a run inside the array ends with the exact counts if and only if no rehash met equal new homes |
| HashRuns.OffEndOverflows | HW03-Hash/src/hash.c:39-45 | the lookup of a new key leaves the array only if the keys with it do not fit without going around the end |
| HashRuns.StoredFits | HW03-Hash/src/hash.c:63-78 | what a table stores whose elements never went around the end fits |
| HashRuns.NewWord | HW03-Hash/src/main.c:26-28 | a new word makes the lookup leave the array, or the rehash lose something, or keeps the table exact, as decided by the distinct words |
| HashRuns.LostExactly | HW03-Hash/src/main.c:25-32 | in a run inside the array something is lost if and only if, for some j, there are more than 7 2^j distinct words and two of the first 7 2^j + 1 have equal hashes modulo 20 2^j |
| HashRuns.CountsExactIff | HW03-Hash/src/main.c:25-32 | a run inside the array ends with the exact counts if and only if there is no such j |
| HashRuns.RightWithoutOverflow | HW03-Hash/src/main.c:23-32 | as far as hashes do not overflow: no lookup leaves the array and the counts are exact if and only if the distinct words fit into every table they come to and have different homes in the next |
| HashRuns.ProgramRightIff | HW03-Hash/src/main.c:23-32 | for all inputs: no hash overflows, no lookup leaves the array and the counts are exact if and only if no word has more than ten characters and the distinct words meet that condition |
| HashRuns.LongWordOverflows | HW03-Hash/src/hash.c:10-13 | a single word of thirteen characters meets that condition and yet overflows |
| HashTableAsWritten.Hash | HW03-Hash/src/hash.c:8-16 | the loop computes the polynomial in 53 of the letters, and whether any value of `hash` or `p_pow` has left `long long` on the way |
| HashSlots.LetterOfCode | HW03-Hash/src/hash.c:12 | what every byte is worth, by its code: 96 minus the code up to 96, the code minus 96 up to 127, 352 minus the code from 128 on |
| HashRange.LastByte | HW03-Hash/src/hash.c:11-14 | one more character adds what its code is worth times the power of 53 reached |
| HashRange.CapitalLetter | HW03-Hash/src/hash.c:8-16 | "The" has the hash 14481, and its home among ten slots is 1 |
| HashRange.HashInRange | HW03-Hash/src/hash.c:10-13 | no value of `hash` or `p_pow` overflows `long long` if and only if the word has at most ten characters |
| HashRange.LongWordWraps | HW03-Hash/src/hash.c:39-40 | the wrapped hash of "understanding" is negative and its remainder by 10 is -6 |
| HashTableAsWritten.Store | HW03-Hash/src/hash.c:65-73 | the cyclic probe reaches the first free slot and stores there |
| HashTableAsWritten.CopyOver | HW03-Hash/src/hash.c:86-96 | the new array after overwriting |
| HashTableAsWritten.HashTable.constructor | HW03-Hash/src/hash.c:18-29 | ten free slots |
| HashTableAsWritten.HashTable.GetElement | HW03-Hash/src/hash.c:37-46 | found, missing, or past the end |
| HashTableAsWritten.HashTable.Rehash | HW03-Hash/src/hash.c:80-100 | twice the capacity, the same `size`, overwritten slots |
| HashTableAsWritten.HashTable.AddElement | HW03-Hash/src/hash.c:63-78 | the key is stored and the table rehashed above the load |
| HashTableAsWritten.CountWords | HW03-Hash/src/main.c:23-32 | the loop reaches the state of the counting machine, or a lookup past the end |
| HashTableAsWritten.ReadsPastTheEnd | HW03-Hash/src/hash.c:41-44 | on "i", "s" the second lookup leaves the array |
| HashTableAsWritten.RehashLosesWord | HW03-Hash/src/hash.c:90-96 | on "a" to "g" and "u" the rehash loses a word |
| HashCorrected.RehashKeepsAll | HW03-Hash/src/hash.c:80-100 | corrected: a rehash that probes keeps every element |
| HashCorrected.GetDecides | HW03-Hash/src/hash.c:37-46 | corrected: a lookup that wraps decides membership |
| HashCorrected.CountsAlwaysExact | HW03-Hash/src/main.c:25-32 | corrected: for every word sequence each distinct word is stored once with its number of occurrences, under the home of its unbounded hash |
| HashRange.ReducedStep | HW03-Hash/src/hash.c:10-14 | corrected: reducing every value by the capacity yields the remainder of the unbounded hash |
| HashRange.ReducedValues | HW03-Hash/src/hash.c:10-14 | corrected: no value then leaves `long long` while 225 times the capacity is in its range |
| HashTableCorrected.ReducedHash | HW03-Hash/src/hash.c:8-16 | corrected: the home of a word of any length |
| HashTableCorrected.CorrectedTable.GetElement | HW03-Hash/src/hash.c:37-46 | corrected lookup in place |
| HashTableCorrected.CorrectedTable.AddElement | HW03-Hash/src/hash.c:63-78 | corrected insertion in place |
| HashTableCorrected.Reinsert | HW03-Hash/src/hash.c:80-100 | corrected rehash in place |
| HashTableCorrected.CountWords | HW03-Hash/src/main.c:23-32 | corrected: the loop ends with a table that stores the frequencies of the words |
| LogStats.AddToKeys | HW10-LogParser/src/main.c:28-47 | `add_entry` keeps the keys unique and adds one key |
| LogStats.AddToCounts | HW10-LogParser/src/main.c:28-47 | `add_entry` adds the delta at its key and nothing else |
| LogStats.PlusAt | HW10-LogParser/src/main.c:166-170 | adding counts has the keys of both and, under each key, the sum of the two values |
| LogStats.CountsOfEntry | HW10-LogParser/src/main.c:28-47 | with unique keys every entry is what is counted under its key |
| LogStats.MergeAdds | HW10-LogParser/src/main.c:166-170 | `merge_maps` keeps keys unique and adds the counts key by key |
| LogStats.AddToTotal | HW10-LogParser/src/main.c:28-47 | the sum of the values grows by the delta |
| LogStats.MergeTotal | HW10-LogParser/src/main.c:166-170 | the sums of the values add up |
| LogStats.CombineLaws | HW10-LogParser/src/main.c:221-230 | merging statistics is commutative, associative and has a neutral element |
| LogParse.StrchrFirst | HW10-LogParser/src/main.c:69 | the first occurrence, or nothing if there is none |
| LogParse.ParseRender | HW10-LogParser/src/main.c:68-113 | a GET line rendered with a URL that ends in no slash or has one character yields that URL, rendered with a slash behind a non-empty URL it yields the URL without it; with its size, and its referer unless empty |
| LogParse.SlashDropped | HW10-LogParser/src/main.c:83-85 | exactly one slash is dropped, and only from the end of a longer URL |
| LogParse.ShapeParsed | HW10-LogParser/src/main.c:68-94 | a line of the shape prefix, quote, GET, URL, rest, quote, number field is parsed as that field tells |
| LogParse.HitHasShape | HW10-LogParser/src/main.c:68-94 | and every other line is ignored |
| LogParse.OtherRequestIgnored | HW10-LogParser/src/main.c:73 | a request that is not a GET is ignored |
| LogParse.SpaceCodes | HW10-LogParser/src/main.c:94 | white space is the codes 9 to 13 and 32, digits are 48 to 57 |
| LogParse.ScanReads | HW10-LogParser/src/main.c:94 | white space, an optional sign and digits are read as the number they stand for, up to the first character that is no digit |
| LogParse.ScanForm | HW10-LogParser/src/main.c:94 | and whatever is read as a number has that form |
| LogParse.SignedSize | HW10-LogParser/src/main.c:92-97 | a sign in front of the size is read with it |
| LogParse.RefererOf | HW10-LogParser/src/main.c:99-112 | without two more quotes there is no referer, between two it is the text unless empty |
| LogParse.CommonFormat | HW10-LogParser/src/main.c:92-100 | a line that ends behind the numbers counts without a referer |
| LogParse.IgnoredExactly | HW10-LogParser/src/main.c:87-94 | with any text in the place of the size, a rendered GET line is ignored if and only if that text has no digit behind white space and an optional sign |
| LogParse.DashIgnored | HW10-LogParser/src/main.c:92-94 | a line whose size is "-" is ignored |
| LogParallel.BucketSize | HW10-LogParser/src/main.c:148-160 | round-robin bucket sizes, exactly |
| LogParallel.BucketAt | HW10-LogParser/src/main.c:148-160 | bucket i of n holds the files i, i + n, i + 2n and so on |
| LogParallel.BucketsBalanced | HW10-LogParser/src/main.c:148-160 | sizes differ by at most one, and behind an empty bucket all are empty |
| LogParallel.NoFileDropped | HW10-LogParser/src/main.c:208-212 | a bucket gets a thread if and only if it has a file |
| LogParallel.DealingKeepsTotal | HW10-LogParser/src/main.c:142-164 | counting the buckets separately and adding up is counting all files |
| LogParallel.StepKeepsInvariant | HW10-LogParser/src/main.c:132-140 | every step keeps the merged total plus what threads have counted and will count |
| LogParallel.ParallelIsSequential | HW10-LogParser/src/main.c:205-235 | for every interleaving of creation, line steps and in-order joins, the final total is that of a sequential pass |
| LogParallel.StepCounts | HW10-LogParser/src/main.c:205-235 | every step brings the end one step nearer |
| LogParallel.NoDeadlock | HW10-LogParser/src/main.c:208-223 | until all threads are joined some step is possible |
| LogParallel.RunsFinish | HW10-LogParser/src/main.c:205-235 | a run that cannot go on has joined all threads, and all such runs have the same number of steps |
| LogParser.LogTallyLawful | HW10-LogParser/src/main.c:221-230 | the statistics of the program meet the laws the parallel theorem needs |
| LogParser.ChunksJoin | HW10-LogParser/src/main.c:119-122 | the buffers of `fgets` are the file, cut |
| LogParser.FirstLine | HW10-LogParser/src/main.c:119-120 | a line of at most 8190 characters is delivered as one buffer with its line end |
| LogParser.LongLineCut | HW10-LogParser/src/main.c:119-120 | a text without a line end in its first 8191 characters is cut behind them |
| LogParser.CStringEnds | HW10-LogParser/src/main.c:119-121 | a NUL in a buffer hides the rest of it from the parser |
| LogParser.FileOfRequests | HW10-LogParser/src/main.c:68-125 | after one pass over a file of rendered requests the byte total is the sum of their sizes, a URL (with or without a slash behind it in the line) is recorded if and only if it was requested, with the sum of its sizes, and a referer with the number of times it is named |
| LogParser.EntryMap.AddEntry | HW10-LogParser/src/main.c:28-47 | the entry array in place: only a new key in a full array makes it grow, from 0 to 16 entries or to twice as many, and all reallocations together copied less than twice the size |
| LogParser.MergeMaps | HW10-LogParser/src/main.c:166-170 | every source entry is added to the destination |
| LogParser.ThreadStats.ParseLogLine | HW10-LogParser/src/main.c:68-113 | the statistics grow by what the line is parsed to; URL values keep summing to `total_bytes` |
| LogParser.ThreadStats.ProcessFile | HW10-LogParser/src/main.c:115-125 | the statistics grow by one sequential pass over the buffers of the file |
| LogParser.ThreadFunction | HW10-LogParser/src/main.c:132-140 | the statistics grow by one sequential pass over all files of the bucket |
| LogParser.PathsOfRegular | HW10-LogParser/src/main.c:148-154 | every regular entry has its path, the directory, a slash and its name, behind the paths of the regular entries before it |
| LogParser.PathsRegular | HW10-LogParser/src/main.c:148-154 | and there is no other path |
| LogParser.SplitFiles | HW10-LogParser/src/main.c:142-164 | bucket i gets the regular files whose turn it is, in order |
| LogParser.MergeThread | HW10-LogParser/src/main.c:224-230 | merging a finished thread combines the statistics |
| LogParser.BucketOfLines | HW10-LogParser/src/main.c:142-164 | dealing the paths and then reading the files is dealing the files |
| LogParser.ThreadsReadBuckets | HW10-LogParser/src/main.c:208-217 | thread i starts with the lines of the files `split_files` has put into bucket i |
| LogParser.ParallelLogIsSequential | HW10-LogParser/src/main.c:202-235 | for every directory, number of threads and interleaving the merged URL map, referer map and byte total are those of one pass over all lines of its regular files |
| ZipFormat.TwoBytes | HW01-Zipjpeg/src/detail.c:74-79 | the little-endian number of two bytes is the sum of the shifted bytes |
| ZipFormat.FourBytes | HW01-Zipjpeg/src/detail.c:66-72 | the same for four bytes |
| ZipFormat.NumberInside | HW01-Zipjpeg/src/detail.c:66-79 | what is read depends on the bytes alone, not on where they stand |
| ZipFormat.FindEocdrMeaning | HW01-Zipjpeg/src/zip.c:26-59 | the record found has the shortest matching comment; 0 if and only if no record matches at a positive offset |
| ZipFormat.CheckedMember | HW01-Zipjpeg/src/zip.c:172-206 | a member that passes has both headers, and its header and data lie inside the view |
| ZipFormat.CheckedExactly | HW01-Zipjpeg/src/zip.c:173-206 | by the raw bytes: a member passes if and only if both headers stand where they belong with their signatures, lengths and data inside the view, the flag at 8 is even, the method at 10 is 0 or 8, a stored member has equal sizes, the disk at 34 is 0 and the name holds no NUL |
| ZipFormat.DirectoryBit | HW01-Zipjpeg/src/zip.c:241 | a member is a directory if and only if bit 4 of the byte at 38 is set |
| ZipFormat.OpenedExactly | HW01-Zipjpeg/src/zip.c:143-213 | a file is opened if and only if an end record stands behind offset 0, both its disk numbers are 0, both its counts are equal, its claimed length is at most its offset and its members pass |
| ZipFormat.OpenedChecked | HW01-Zipjpeg/src/zip.c:143-213 | success means the loop accepted as many members as the end record counts, ending at `members_end` |
| ZipFormat.ListingSound | HW01-Zipjpeg/src/zip.c:143-248 | for every file that opens: as many members as the end record counts, each behind the one before inside the view, checked, unencrypted, on disk 0, with a name without NUL and the method 0 or 8, the last ending at `members_end` |
| ZipFormat.OutsideExactly | HW01-Zipjpeg/src/zip.c:157-158 | the start index the subtraction yields, plus the claimed length, is the offset of the end record; it is negative if and only if the 32-bit sum exceeds that offset |
| ZipFormat.ViewAligned | HW01-Zipjpeg/src/zip.c:157-158 | an opened view is the file from that index on, and the end record and the comment stand in it at the claimed offset |
| ZipFormat.PrefixIndependence | HW01-Zipjpeg/src/zip.c:151-158 | any bytes in front of an archive that opens leave view, comment and members as they are |
| ZipReader.FindEndRecord | HW01-Zipjpeg/src/zip.c:26-59 | the backward scan finds that record and its fields |
| ZipReader.ReadCfh | HW01-Zipjpeg/src/zip.c:62-103 | accepts exactly a header that fits with its variable part, and reads its fields |
| ZipReader.ReadLfh | HW01-Zipjpeg/src/zip.c:105-139 | the same for the local header |
| ZipReader.Check | HW01-Zipjpeg/src/zip.c:173-206 | one round of the checks |
| ZipReader.CheckAll | HW01-Zipjpeg/src/zip.c:171-210 | the loop over the central directory |
| ZipReader.ZipArchive.Read | HW01-Zipjpeg/src/zip.c:143-213 | `zip_read` with its fields; a success leaves an archive all of whose members were checked |
| ZipReader.ZipArchive.GetMember | HW01-Zipjpeg/src/zip.c:216-248 | all four assertions hold for every member of an opened archive |
| ZipReader.ZipArchive.List | HW01-Zipjpeg/src/zip.c:271-274 | the loop ends and visits exactly the members that were checked |
| ZipRoundTrip.SixteenBits | HW01-Zipjpeg/src/detail.c:74-79 | the two bytes of a number, wherever they stand, are read back as it |
| ZipRoundTrip.ThirtyTwoBits | HW01-Zipjpeg/src/detail.c:66-72 | so are four bytes |
| ZipRoundTrip.HeadersRead | HW01-Zipjpeg/src/zip.c:62-139 | both headers of a written member are read back field by field |
| ZipRoundTrip.MemberReads | HW01-Zipjpeg/src/zip.c:172-248 | a written member passes the checks if and only if it is supported, and then comes back as written |
| ZipRoundTrip.MembersRead | HW01-Zipjpeg/src/zip.c:171-210 | a whole written directory is accepted and listed as written, unless one of its members is not supported: then it fails |
| ZipRoundTrip.ArchiveFound | HW01-Zipjpeg/src/zip.c:26-59 | the end record of a written archive is the one found if and only if no shorter tail is a matching record |
| ZipRoundTrip.RoundTrip | HW01-Zipjpeg/src/zip.c:26-248 | a file ending in an archive written for any members opens as that archive if and only if all of them are supported (unencrypted, stored or deflated, stored at equal sizes, on disk 0, name without NUL), no shorter tail is a matching end record and its own is not at offset 0; it lists the same names, sizes, methods, checksums, comments and data. With an unsupported member it is rejected |
| ZipRoundTrip.EncryptedRejected | HW01-Zipjpeg/src/zip.c:180-182 | an archive without comment, written with one encrypted member, is rejected |
| ZipRoundTrip.RoundTripWithoutComment | HW01-Zipjpeg/src/zip.c:26-248 | without an archive comment it opens if and only if all members are supported and something stands in front of the end record |
| ZipRoundTrip.EmptyArchiveRejected | HW01-Zipjpeg/src/zip.c:58-155 | an archive whose end record is at offset 0 is rejected |
| ZipRoundTrip.ViewLeavesBuffer | HW01-Zipjpeg/src/zip.c:157-158 | a file whose view would start in front of the buffer |

## Left out

Whole exercises, because they are glue around system calls, windows or libraries, or would
only add easy members: HW04-Weather, HW05-Gtk, HW06-Logger, HW07-ASM and HW07-Valgrind,
HW08-IPC, HW11-Network, HW12-FileServer, HW13-strace, HW15-DB, HW16-Cube and the pomodoro
timer.

Inside the modelled exercises:

- Crc32.GetCrc32: mapping is abstracted to the number of mappings that succeed before one
  fails; a file that changes while it is read is not modelled.
- ZipReader.ZipArchive.Read: the fields that `zip_read` has already set when it fails are not
  specified, and nothing is claimed about a run after the view has left the buffer.
- ZipRoundTrip.RoundTrip: the modification time is left out, since `dos2ctime` ends in the C
  library's `mktime`. The writer belongs to the model, not to the repository; it writes one
  local part per member in order, which the reader does not insist on.
- LogParse.ParseRender: `int` and `long` are mathematical integers, so numbers out of range are
  not modelled; white space and digits are those of ASCII.
- HashTableAsWritten.Hash: the result is the unbounded one; on words of more than ten characters
  `inRange` is false and what the machine goes on to do is not modelled beyond the example
  `HashRange.LongWordWraps`. `char` is a signed byte, as with the usual compilers for x86.
- Files, `mmap`, `fopen`, `readdir`, `printf`, `malloc`: contents of files and directories are
  parameters; allocation never fails; freeing is not modelled.
- In the checksum, the table is written as sixteen rows of sixteen entries and looked up
  through a function; values and order are those of the source.
- In the ZIP reader, the buffer is a sequence, as it is only read; pointers into it are offsets
  and slices; `size_t` is a natural number, and the one sum that wraps,
  `cd_offset + cd_size`, is taken modulo 2^32. The printing of `list_zip` is left out.
- In the game, one method stands for the four move functions, which differ only in the order of
  the indices; the left move copies its line like the other three instead of passing a pointer
  into the board. The two values of `rand` are parameters and keys come from a sequence;
  probabilities, the menu and all printing are left out.
- In the log parser, a thread step counts one line atomically; the maps of the threads are
  private, so finer steps would commute. Maps are compared by content, as the order of the
  entries depends on the dealing. Entries are values in the array instead of pointers to heap
  records, and buckets are sequences of paths instead of NULL-terminated arrays.
- `select_top_n`: the order is left to the C library's `qsort`, and its comparison truncates a
  `long` difference to `int`.
- In the hash table, elements are values in their slots, so a lookup returns the index of a
  slot instead of a pointer. The load test compares `10 * size > 7 * capacity` in integers; the
  division in doubles agrees with it for the capacities 10 2^k that occur. A word that occurs
  more often than `int` can count is not modelled.
- `remove_element`, which the word count never calls, and the splitting of the file by `%99s`.
- In the driver, the text made by `snprintf` is a parameter and the mutex makes each of the
  three sections one step. `module_param`, sysfs, `init` and `exit` are left out.
