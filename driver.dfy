/**
  The driver: a packet-marker search (window 4) over the whole input, then a
  message-marker search (window 14) over the suffix that starts eight bytes
  before the packet marker's end, shifted back to an absolute position.
*/
module Driver {
  import opened Wrappers
  import opened Distinct
  import opened MarkerFinder

  const PacketMarkerLength: nat := 4
  const MessageMarkerLength: nat := 14

  /** Rust's `usize::checked_sub`. */
  function CheckedSub(a: nat, b: nat): Option<nat>
  {
    if b <= a then Some(a - b) else None
  }

  /** `checked_sub(2 * 4).unwrap_or_default()`: the start of the message search,
      eight bytes before the packet marker's end, clamped at zero. */
  function MessageSearchStart(packetEnd: nat): (start: nat)
    ensures start <= packetEnd
    ensures start == if packetEnd < 2 * PacketMarkerLength then 0
                     else packetEnd - 2 * PacketMarkerLength
  {
    CheckedSub(packetEnd, 2 * PacketMarkerLength).GetOr(0)
  }

  /** A position found in `input[offset..]`, as a position in `input`. */
  function Shift(offset: nat, r: Option<nat>): Option<nat>
  {
    match r
    case Some(k) => Some(offset + k)
    case None => None
  }

  /** Searching the suffix `input[offset..]` is searching `input` from
      `offset` on, with positions moved by `offset`. */
  lemma {:induction false} SuffixSearch(input: seq<byte>, n: nat, offset: nat, from: nat)
    requires n >= 1
    requires offset <= |input|
    ensures Shift(offset, MarkerFrom(input[offset..], n, from)) == MarkerFrom(input, n, offset + from)
    decreases |input| - offset - from
  {
    var suffix := input[offset..];
    if from + n <= |suffix| {
      assert suffix[from..from + n] == input[offset + from..offset + from + n];
      if !DistinctWindow(suffix, n, from) {
        SuffixSearch(input, n, offset, from + 1);
      }
    }
  }

  /** Starting the search later changes nothing when no window in between is
      distinct. */
  lemma {:induction false} SkipSearch(input: seq<byte>, n: nat, from: nat, to: nat)
    requires n >= 1
    requires from <= to
    requires forall s: nat :: from <= s < to && s + n <= |input| ==> !DistinctWindow(input, n, s)
    ensures MarkerFrom(input, n, from) == MarkerFrom(input, n, to)
    decreases (to as int) - from
  {
    if from < to && from + n <= |input| {
      SkipSearch(input, n, from + 1, to);
    }
  }

  /** A distinct window of length `n` begins with a distinct window of every
      length `m <= n`. */
  lemma DistinctWindowPrefix(input: seq<byte>, m: nat, n: nat, s: nat)
    requires m <= n
    requires s + n <= |input|
    requires DistinctWindow(input, n, s)
    ensures DistinctWindow(input, m, s)
  {
    assert input[s..s + m] == input[s..s + n][..m];
    NoDuplicatesPrefix(input[s..s + n], m);
  }

  /** When the first distinct `m`-window ends at `p`, a search for `n`-windows
      (`m <= n`) on any suffix starting at or before `p - m` gives the same
      absolute answer as a search of the whole input: an earlier distinct
      `n`-window would begin with an earlier distinct `m`-window. */
  lemma NarrowedSearch(input: seq<byte>, m: nat, n: nat, p: nat, offset: nat)
    requires 1 <= m <= n
    requires Marker(input, m) == Some(p)
    requires offset + m <= p
    ensures offset <= |input|
    ensures Shift(offset, Marker(input[offset..], n)) == Marker(input, n)
  {
    MarkerSomeIff(input, m, p);
    forall s: nat | s < offset && s + n <= |input|
      ensures !DistinctWindow(input, n, s)
    {
      if DistinctWindow(input, n, s) {
        DistinctWindowPrefix(input, m, n, s);
      }
    }
    SkipSearch(input, n, 0, offset);
    SuffixSearch(input, n, offset, 0);
  }

  /** The offset optimisation of the driver is sound: the message search on
      the suffix, shifted back, equals a message search of the whole input. */
  lemma MessageSearchSound(input: seq<byte>, packetEnd: nat)
    requires Marker(input, PacketMarkerLength) == Some(packetEnd)
    ensures MessageSearchStart(packetEnd) <= |input|
    ensures var start := MessageSearchStart(packetEnd);
      Shift(start, Marker(input[start..], MessageMarkerLength)) == Marker(input, MessageMarkerLength)
  {
    MarkerSomeIff(input, PacketMarkerLength, packetEnd);
    NarrowedSearch(input, PacketMarkerLength, MessageMarkerLength, packetEnd, MessageSearchStart(packetEnd));
  }

  /** A message marker is preceded by a packet marker: the first distinct
      14-window starts with a distinct 4-window, so the packet marker ends at
      least ten bytes before the message marker. */
  lemma MessageNeedsPacket(input: seq<byte>)
    requires Marker(input, MessageMarkerLength).Some?
    ensures Marker(input, PacketMarkerLength).Some?
    ensures Marker(input, PacketMarkerLength).value + (MessageMarkerLength - PacketMarkerLength)
            <= Marker(input, MessageMarkerLength).value
  {
    var q := Marker(input, MessageMarkerLength).value;
    MarkerSomeIff(input, MessageMarkerLength, q);
    DistinctWindowPrefix(input, PacketMarkerLength, MessageMarkerLength, q - MessageMarkerLength);
    MarkerNoneIff(input, PacketMarkerLength);
    var p := Marker(input, PacketMarkerLength).value;
    MarkerSomeIff(input, PacketMarkerLength, p);
  }

  /** What `main` prints, or which of its two `unwrap`s panics. */
  datatype Outcome =
    | Answers(packetEnd: nat, messageEnd: nat)
    | MissingPacketMarker
    | MissingMessageMarker

  /** `main` without the file read and the printing. */
  method Solve(input: seq<byte>) returns (out: Outcome)
    ensures Marker(input, PacketMarkerLength).None? ==> out == MissingPacketMarker
    ensures Marker(input, PacketMarkerLength).Some? && Marker(input, MessageMarkerLength).None?
            ==> out == MissingMessageMarker
    ensures Marker(input, PacketMarkerLength).Some? && Marker(input, MessageMarkerLength).Some?
            ==> out == Answers(Marker(input, PacketMarkerLength).value, Marker(input, MessageMarkerLength).value)
  {
    var packet := FindMarker(input, PacketMarkerLength);
    if packet.None? {
      return MissingPacketMarker;
    }
    var start := MessageSearchStart(packet.value);
    MessageSearchSound(input, packet.value);
    var relative := FindMarker(input[start..], MessageMarkerLength);
    if relative.None? {
      return MissingMessageMarker;
    }
    return Answers(packet.value, start + relative.value);
  }
}
