# Start-of-packet and start-of-message markers, in Dafny

The program scans a byte buffer for the first run of `n` consecutive bytes that
are pairwise distinct. It reports the position just past that run (the
"marker"). The driver runs the search twice. The first search, with `n = 4`,
finds the packet marker `p`. The second, with `n = 14`, finds the message
marker. The second search only looks at the suffix that starts at
`max(0, p - 8)` and adds that offset back to its relative answer.

The model has four modules, one per part of `src/main.rs`:

- `Distinct` (`distinct.dfy`) models `is_distinct`. It copies the window into
  a local array and sorts it in place (`SortUnstable`, an insertion sort that
  stands in for `sort_unstable`). A loop then plays the fold. Its accumulator
  is the pair `(ok, prev)`, and `prev` compares against each value with
  Rust's ordering on `Option<u8>`, where `None` lies below every `Some`. The
  method is proved to return exactly `NoDuplicates(chunk)`.
- `MarkerFinder` (`marker.dfy`) models `find_marker`. `Marker(input, n)` is
  the first-window definition. The method `FindMarker` walks the windows in
  order the way `windows(n).enumerate().find(..)` does. It converts each
  window to an array (`TryIntoArray`, the `try_from(..).ok()` step), falls
  back to `false` as `unwrap_or_default()` does, and calls `IsDistinct`. It
  is proved to return `Marker(input, n)`.
- `Driver` (`driver.dfy`) models `main` without the file read and the
  printing. It covers the search-start arithmetic
  (`checked_sub(2 * 4).unwrap_or_default()`), the shift back to absolute
  positions, and the proof that the narrowed message search gives the same
  answer as a search of the whole buffer. The two `unwrap()` calls in `main`
  become the outcomes `MissingPacketMarker` and `MissingMessageMarker`.
- `Scenarios` (`scenarios.dfy`) holds the four worked examples, a buffer
  shorter than the window, and a buffer made of one repeated byte.

Bytes are the newtype `byte` (0 to 255). Window size is a run-time `n >= 1`
rather than a const generic. `windows(0)` panics in Rust, so every search
requires `n >= 1`. Positions are `nat`. Every position the program computes
is at most the buffer length, so `usize` overflow cannot happen.

A note on the worked examples: one description of this program gives 20 as
the message marker of `zcfzfwzzqfrljwzlrfnpqdbhtmscgvjw`. The code as written
returns 26. The first 14 distinct bytes are `jwzlrfnpqdbhtm`, at offsets 12
to 25. The model follows the code, and `Scenarios.ExampleFourMessage` proves 26.

## Model

| member | source | states |
|---|---|---|
| `Distinct.SortUnstable` | src/main.rs:18 | after the call the array is sorted and is a permutation (same multiset) of its old contents |
| `Distinct.IsDistinct` | src/main.rs:16-26 | the result is true exactly when no two positions of the chunk hold equal bytes; the fold loop keeps `ok` equal to "the sorted prefix is strictly increasing" and `prev` equal to `None` for the empty prefix and `Some` of its last element otherwise |
| `Distinct.SortedStrictIffNoDuplicates` | src/main.rs:19-24 | on a sorted sequence, "each value is greater than the one before" holds exactly when there are no duplicates |
| `Distinct.PermutationPreservesNoDuplicates` | src/main.rs:17-18 | two sequences with the same multiset of bytes are both duplicate-free or both not, so sorting the copy first does not change the answer |
| `Distinct.NoDuplicatesIffMultiplicity` | src/main.rs:15 | a sequence has no duplicate entries exactly when no byte occurs in it more than once |
| `MarkerFinder.FindMarker` | src/main.rs:2-13 | the windows-enumerate-find pipeline returns exactly `Marker(input, n)`, the end of the first distinct window, or `None` |
| `MarkerFinder.WindowConversionSucceeds` | src/main.rs:7-10 | every window of length `n` converts to an array of length `n`, so the `unwrap_or_default()` fallback is never used |
| `MarkerFinder.MarkerFromSome` | src/main.rs:4-6 | a hit of the search from offset `from` lies between `from + n` and the buffer length, ends a distinct window, and no window between `from` and it is distinct |
| `MarkerFinder.MarkerFromNone` | src/main.rs:4-6 | the search from `from` finds nothing exactly when no window starting at or after `from` is distinct |
| `MarkerFinder.MarkerSomeIff` | src/main.rs:3-12 | `Some(idx)` is returned exactly when `n <= idx <= len`, the bytes `input[idx-n..idx]` are pairwise distinct, and every window starting before `idx - n` holds a repeated byte (soundness, minimality and the converse) |
| `MarkerFinder.MarkerNoneIff` | src/main.rs:3-12 | `None` is returned exactly when no window of length `n` is distinct |
| `MarkerFinder.MarkerShortInput` | src/main.rs:3-4 | a buffer shorter than `n` has no windows and gives `None` |
| `Driver.MessageSearchStart` | src/main.rs:38-40 | the message search starts at `p - 8`, or at 0 when `p < 8`, and never after `p` |
| `Driver.SuffixSearch` | src/main.rs:42-46 | searching `input[offset..]` and adding `offset` to a hit is the same as searching `input` from `offset` on |
| `Driver.SkipSearch` | src/main.rs:37-43 | starting the search later gives the same answer when none of the skipped windows is distinct |
| `Driver.DistinctWindowPrefix` | src/main.rs:37-40 | the first `m` bytes of a distinct window of length `n >= m` are themselves distinct |
| `Driver.NarrowedSearch` | src/main.rs:37-46 | if the first distinct `m`-window ends at `p` and `offset <= p - m`, then the `n`-window search (`n >= m`) of `input[offset..]`, shifted by `offset`, equals the `n`-window search of all of `input` (both `None` or both the same `Some`) |
| `Driver.MessageSearchSound` | src/main.rs:37-46 | for the packet marker `p`, the slice `input[max(0, p-8)..]` is in bounds, and offset plus the relative 14-window result equals the 14-window search of the whole buffer |
| `Driver.MessageNeedsPacket` | src/main.rs:31-46 | whenever a message marker exists, a packet marker exists and ends at least 10 bytes before it |
| `Driver.Solve` | src/main.rs:28-49 | `main` reports the packet marker and the full-buffer message marker when both exist; otherwise it stops at the `unwrap` that fails |
| `Scenarios.ExampleOnePacket` | src/main.rs:2-13 | `bvwbjplbgvbhsrlpgdmjqwftvncz` with `n = 4` gives 5 |
| `Scenarios.ExampleOneMessage` | src/main.rs:2-13 | `bvwbjplbgvbhsrlpgdmjqwftvncz` with `n = 14` gives 23 |
| `Scenarios.ExampleTwoPacket` | src/main.rs:2-13 | `nppdvjthqldpwncqszvftbrmjlhg` with `n = 4` gives 6 |
| `Scenarios.ExampleTwoMessage` | src/main.rs:2-13 | `nppdvjthqldpwncqszvftbrmjlhg` with `n = 14` gives 23 |
| `Scenarios.ExampleThreePacket` | src/main.rs:2-13 | `nznrnfrfntjfmvfwmzdfjlvtqnbhcprsg` with `n = 4` gives 10 |
| `Scenarios.ExampleThreeMessage` | src/main.rs:2-13 | `nznrnfrfntjfmvfwmzdfjlvtqnbhcprsg` with `n = 14` gives 29 |
| `Scenarios.ExampleFourPacket` | src/main.rs:2-13 | `zcfzfwzzqfrljwzlrfnpqdbhtmscgvjw` with `n = 4` gives 11 |
| `Scenarios.ExampleFourMessage` | src/main.rs:2-13 | `zcfzfwzzqfrljwzlrfnpqdbhtmscgvjw` with `n = 14` gives 26 |
| `Scenarios.ShortBufferHasNoMarker` | src/main.rs:3-4 | a 3-byte buffer has no 4-byte marker |
| `Scenarios.RepeatedByteHasNoMarker` | src/main.rs:2-13 | a buffer that repeats a single byte has no marker for any `n >= 2`, whatever its length |

## Left out

- Reading `input.txt` and the `?` on its error (src/main.rs:29) are file I/O. `Solve` takes the bytes as a parameter.
- The two `println!` lines (src/main.rs:33, src/main.rs:47) are output formatting and are not modelled.
- The `unwrap()` panics (src/main.rs:32, src/main.rs:45) become the `Outcome` values `MissingPacketMarker` and `MissingMessageMarker`. The model does not abort a process.
- `SortUnstable` is an insertion sort, not the standard library's pattern-defeating quicksort. Only "sorted permutation of the input" matters to `is_distinct`, and that is exactly what its contract states.
- The const-generic window size and the fixed-size array type `[u8; N]` are type-level details. The model uses a run-time `n` and a `seq<byte>` of length `n`.
- The search is a pure function, so running it twice on the same buffer gives the same result by construction. No lemma states this.
