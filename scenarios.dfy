/**
  The worked examples: concrete buffers (ASCII text, written out as bytes) and
  the markers the search reports for them. Each proof names, for every window
  before the marker, two positions holding the same byte, and spells out the
  bytes of the marker's own window.
*/
module Scenarios {
  import opened Wrappers
  import opened Distinct
  import opened MarkerFinder

  /** "bvwbjplbgvbhsrlpgdmjqwftvncz" */
  const ExampleOne: seq<byte> := [98, 118, 119, 98, 106, 112, 108, 98, 103, 118, 98, 104, 115, 114, 108, 112, 103, 100, 109, 106, 113, 119, 102, 116, 118, 110, 99, 122]

  /** "nppdvjthqldpwncqszvftbrmjlhg" */
  const ExampleTwo: seq<byte> := [110, 112, 112, 100, 118, 106, 116, 104, 113, 108, 100, 112, 119, 110, 99, 113, 115, 122, 118, 102, 116, 98, 114, 109, 106, 108, 104, 103]

  /** "nznrnfrfntjfmvfwmzdfjlvtqnbhcprsg" */
  const ExampleThree: seq<byte> := [110, 122, 110, 114, 110, 102, 114, 102, 110, 116, 106, 102, 109, 118, 102, 119, 109, 122, 100, 102, 106, 108, 118, 116, 113, 110, 98, 104, 99, 112, 114, 115, 103]

  /** "zcfzfwzzqfrljwzlrfnpqdbhtmscgvjw" */
  const ExampleFour: seq<byte> := [122, 99, 102, 122, 102, 119, 122, 122, 113, 102, 114, 108, 106, 119, 122, 108, 114, 102, 110, 112, 113, 100, 98, 104, 116, 109, 115, 99, 103, 118, 106, 119]

  /** Two equal bytes inside a window make it not distinct. */
  lemma RepeatInWindow(input: seq<byte>, n: nat, s: nat, a: nat, b: nat)
    requires s <= a < b < s + n <= |input|
    requires input[a] == input[b]
    ensures !DistinctWindow(input, n, s)
  {
    assert input[s..s + n][a - s] == input[s..s + n][b - s];
  }

  lemma ExampleOnePacketWindow()
    ensures DistinctWindow(ExampleOne, 4, 1)
  {
    assert ExampleOne[1] == 118 && ExampleOne[2] == 119 && ExampleOne[3] == 98 && ExampleOne[4] == 106;
  }

  lemma ExampleOnePacketEarlier()
    ensures forall s: nat :: s < 1 ==> !DistinctWindow(ExampleOne, 4, s)
  {
    forall s: nat | s < 1 ensures !DistinctWindow(ExampleOne, 4, s) {
      if s == 0 {
        RepeatInWindow(ExampleOne, 4, 0, 0, 3);
      }
    }
  }

  lemma ExampleOnePacket()
    ensures Marker(ExampleOne, 4) == Some(5)
  {
    ExampleOnePacketWindow();
    ExampleOnePacketEarlier();
    MarkerSomeIff(ExampleOne, 4, 5);
  }

  lemma ExampleOneMessageWindow()
    ensures DistinctWindow(ExampleOne, 14, 9)
  {
    assert ExampleOne[9] == 118 && ExampleOne[10] == 98 && ExampleOne[11] == 104 && ExampleOne[12] == 115 && ExampleOne[13] == 114 && ExampleOne[14] == 108 && ExampleOne[15] == 112 && ExampleOne[16] == 103 && ExampleOne[17] == 100 && ExampleOne[18] == 109 && ExampleOne[19] == 106 && ExampleOne[20] == 113 && ExampleOne[21] == 119 && ExampleOne[22] == 102;
  }

  lemma ExampleOneMessageEarlier()
    ensures forall s: nat :: s < 9 ==> !DistinctWindow(ExampleOne, 14, s)
  {
    forall s: nat | s < 9 ensures !DistinctWindow(ExampleOne, 14, s) {
      if s == 0 {
        RepeatInWindow(ExampleOne, 14, 0, 0, 3);
      } else if s == 1 {
        RepeatInWindow(ExampleOne, 14, 1, 1, 9);
      } else if s == 2 {
        RepeatInWindow(ExampleOne, 14, 2, 3, 7);
      } else if s == 3 {
        RepeatInWindow(ExampleOne, 14, 3, 3, 7);
      } else if s == 4 {
        RepeatInWindow(ExampleOne, 14, 4, 5, 15);
      } else if s == 5 {
        RepeatInWindow(ExampleOne, 14, 5, 5, 15);
      } else if s == 6 {
        RepeatInWindow(ExampleOne, 14, 6, 6, 14);
      } else if s == 7 {
        RepeatInWindow(ExampleOne, 14, 7, 7, 10);
      } else {
        RepeatInWindow(ExampleOne, 14, 8, 8, 16);
      }
    }
  }

  lemma ExampleOneMessage()
    ensures Marker(ExampleOne, 14) == Some(23)
  {
    ExampleOneMessageWindow();
    ExampleOneMessageEarlier();
    MarkerSomeIff(ExampleOne, 14, 23);
  }

  lemma ExampleTwoPacketWindow()
    ensures DistinctWindow(ExampleTwo, 4, 2)
  {
    assert ExampleTwo[2] == 112 && ExampleTwo[3] == 100 && ExampleTwo[4] == 118 && ExampleTwo[5] == 106;
  }

  lemma ExampleTwoPacketEarlier()
    ensures forall s: nat :: s < 2 ==> !DistinctWindow(ExampleTwo, 4, s)
  {
    forall s: nat | s < 2 ensures !DistinctWindow(ExampleTwo, 4, s) {
      if s == 0 {
        RepeatInWindow(ExampleTwo, 4, 0, 1, 2);
      } else {
        RepeatInWindow(ExampleTwo, 4, 1, 1, 2);
      }
    }
  }

  lemma ExampleTwoPacket()
    ensures Marker(ExampleTwo, 4) == Some(6)
  {
    ExampleTwoPacketWindow();
    ExampleTwoPacketEarlier();
    MarkerSomeIff(ExampleTwo, 4, 6);
  }

  lemma ExampleTwoMessageWindow()
    ensures DistinctWindow(ExampleTwo, 14, 9)
  {
    assert ExampleTwo[9] == 108 && ExampleTwo[10] == 100 && ExampleTwo[11] == 112 && ExampleTwo[12] == 119 && ExampleTwo[13] == 110 && ExampleTwo[14] == 99 && ExampleTwo[15] == 113 && ExampleTwo[16] == 115 && ExampleTwo[17] == 122 && ExampleTwo[18] == 118 && ExampleTwo[19] == 102 && ExampleTwo[20] == 116 && ExampleTwo[21] == 98 && ExampleTwo[22] == 114;
  }

  lemma ExampleTwoMessageEarlier()
    ensures forall s: nat :: s < 9 ==> !DistinctWindow(ExampleTwo, 14, s)
  {
    forall s: nat | s < 9 ensures !DistinctWindow(ExampleTwo, 14, s) {
      if s == 0 {
        RepeatInWindow(ExampleTwo, 14, 0, 0, 13);
      } else if s == 1 {
        RepeatInWindow(ExampleTwo, 14, 1, 1, 2);
      } else if s == 2 {
        RepeatInWindow(ExampleTwo, 14, 2, 2, 11);
      } else if s == 3 {
        RepeatInWindow(ExampleTwo, 14, 3, 3, 10);
      } else if s == 4 {
        RepeatInWindow(ExampleTwo, 14, 4, 8, 15);
      } else if s == 5 {
        RepeatInWindow(ExampleTwo, 14, 5, 8, 15);
      } else if s == 6 {
        RepeatInWindow(ExampleTwo, 14, 6, 8, 15);
      } else if s == 7 {
        RepeatInWindow(ExampleTwo, 14, 7, 8, 15);
      } else {
        RepeatInWindow(ExampleTwo, 14, 8, 8, 15);
      }
    }
  }

  lemma ExampleTwoMessage()
    ensures Marker(ExampleTwo, 14) == Some(23)
  {
    ExampleTwoMessageWindow();
    ExampleTwoMessageEarlier();
    MarkerSomeIff(ExampleTwo, 14, 23);
  }

  lemma ExampleThreePacketWindow()
    ensures DistinctWindow(ExampleThree, 4, 6)
  {
    assert ExampleThree[6] == 114 && ExampleThree[7] == 102 && ExampleThree[8] == 110 && ExampleThree[9] == 116;
  }

  lemma ExampleThreePacketEarlier()
    ensures forall s: nat :: s < 6 ==> !DistinctWindow(ExampleThree, 4, s)
  {
    forall s: nat | s < 6 ensures !DistinctWindow(ExampleThree, 4, s) {
      if s == 0 {
        RepeatInWindow(ExampleThree, 4, 0, 0, 2);
      } else if s == 1 {
        RepeatInWindow(ExampleThree, 4, 1, 2, 4);
      } else if s == 2 {
        RepeatInWindow(ExampleThree, 4, 2, 2, 4);
      } else if s == 3 {
        RepeatInWindow(ExampleThree, 4, 3, 3, 6);
      } else if s == 4 {
        RepeatInWindow(ExampleThree, 4, 4, 5, 7);
      } else {
        RepeatInWindow(ExampleThree, 4, 5, 5, 7);
      }
    }
  }

  lemma ExampleThreePacket()
    ensures Marker(ExampleThree, 4) == Some(10)
  {
    ExampleThreePacketWindow();
    ExampleThreePacketEarlier();
    MarkerSomeIff(ExampleThree, 4, 10);
  }

  lemma ExampleThreeMessageWindow()
    ensures DistinctWindow(ExampleThree, 14, 15)
  {
    assert ExampleThree[15] == 119 && ExampleThree[16] == 109 && ExampleThree[17] == 122 && ExampleThree[18] == 100 && ExampleThree[19] == 102 && ExampleThree[20] == 106 && ExampleThree[21] == 108 && ExampleThree[22] == 118 && ExampleThree[23] == 116 && ExampleThree[24] == 113 && ExampleThree[25] == 110 && ExampleThree[26] == 98 && ExampleThree[27] == 104 && ExampleThree[28] == 99;
  }

  lemma ExampleThreeMessageEarlier()
    ensures forall s: nat :: s < 15 ==> !DistinctWindow(ExampleThree, 14, s)
  {
    forall s: nat | s < 15 ensures !DistinctWindow(ExampleThree, 14, s) {
      if s == 0 {
        RepeatInWindow(ExampleThree, 14, 0, 0, 2);
      } else if s == 1 {
        RepeatInWindow(ExampleThree, 14, 1, 2, 4);
      } else if s == 2 {
        RepeatInWindow(ExampleThree, 14, 2, 2, 4);
      } else if s == 3 {
        RepeatInWindow(ExampleThree, 14, 3, 3, 6);
      } else if s == 4 {
        RepeatInWindow(ExampleThree, 14, 4, 4, 8);
      } else if s == 5 {
        RepeatInWindow(ExampleThree, 14, 5, 5, 7);
      } else if s == 6 {
        RepeatInWindow(ExampleThree, 14, 6, 7, 11);
      } else if s == 7 {
        RepeatInWindow(ExampleThree, 14, 7, 7, 11);
      } else if s == 8 {
        RepeatInWindow(ExampleThree, 14, 8, 10, 20);
      } else if s == 9 {
        RepeatInWindow(ExampleThree, 14, 9, 10, 20);
      } else if s == 10 {
        RepeatInWindow(ExampleThree, 14, 10, 10, 20);
      } else if s == 11 {
        RepeatInWindow(ExampleThree, 14, 11, 11, 14);
      } else if s == 12 {
        RepeatInWindow(ExampleThree, 14, 12, 12, 16);
      } else if s == 13 {
        RepeatInWindow(ExampleThree, 14, 13, 13, 22);
      } else {
        RepeatInWindow(ExampleThree, 14, 14, 14, 19);
      }
    }
  }

  lemma ExampleThreeMessage()
    ensures Marker(ExampleThree, 14) == Some(29)
  {
    ExampleThreeMessageWindow();
    ExampleThreeMessageEarlier();
    MarkerSomeIff(ExampleThree, 14, 29);
  }

  lemma ExampleFourPacketWindow()
    ensures DistinctWindow(ExampleFour, 4, 7)
  {
    assert ExampleFour[7] == 122 && ExampleFour[8] == 113 && ExampleFour[9] == 102 && ExampleFour[10] == 114;
  }

  lemma ExampleFourPacketEarlier()
    ensures forall s: nat :: s < 7 ==> !DistinctWindow(ExampleFour, 4, s)
  {
    forall s: nat | s < 7 ensures !DistinctWindow(ExampleFour, 4, s) {
      if s == 0 {
        RepeatInWindow(ExampleFour, 4, 0, 0, 3);
      } else if s == 1 {
        RepeatInWindow(ExampleFour, 4, 1, 2, 4);
      } else if s == 2 {
        RepeatInWindow(ExampleFour, 4, 2, 2, 4);
      } else if s == 3 {
        RepeatInWindow(ExampleFour, 4, 3, 3, 6);
      } else if s == 4 {
        RepeatInWindow(ExampleFour, 4, 4, 6, 7);
      } else if s == 5 {
        RepeatInWindow(ExampleFour, 4, 5, 6, 7);
      } else {
        RepeatInWindow(ExampleFour, 4, 6, 6, 7);
      }
    }
  }

  lemma ExampleFourPacket()
    ensures Marker(ExampleFour, 4) == Some(11)
  {
    ExampleFourPacketWindow();
    ExampleFourPacketEarlier();
    MarkerSomeIff(ExampleFour, 4, 11);
  }

  lemma ExampleFourMessageWindow()
    ensures DistinctWindow(ExampleFour, 14, 12)
  {
    assert ExampleFour[12] == 106 && ExampleFour[13] == 119 && ExampleFour[14] == 122 && ExampleFour[15] == 108 && ExampleFour[16] == 114 && ExampleFour[17] == 102 && ExampleFour[18] == 110 && ExampleFour[19] == 112 && ExampleFour[20] == 113 && ExampleFour[21] == 100 && ExampleFour[22] == 98 && ExampleFour[23] == 104 && ExampleFour[24] == 116 && ExampleFour[25] == 109;
  }

  lemma ExampleFourMessageEarlier()
    ensures forall s: nat :: s < 12 ==> !DistinctWindow(ExampleFour, 14, s)
  {
    forall s: nat | s < 12 ensures !DistinctWindow(ExampleFour, 14, s) {
      if s == 0 {
        RepeatInWindow(ExampleFour, 14, 0, 0, 3);
      } else if s == 1 {
        RepeatInWindow(ExampleFour, 14, 1, 2, 4);
      } else if s == 2 {
        RepeatInWindow(ExampleFour, 14, 2, 2, 4);
      } else if s == 3 {
        RepeatInWindow(ExampleFour, 14, 3, 3, 6);
      } else if s == 4 {
        RepeatInWindow(ExampleFour, 14, 4, 4, 9);
      } else if s == 5 {
        RepeatInWindow(ExampleFour, 14, 5, 5, 13);
      } else if s == 6 {
        RepeatInWindow(ExampleFour, 14, 6, 6, 7);
      } else if s == 7 {
        RepeatInWindow(ExampleFour, 14, 7, 7, 14);
      } else if s == 8 {
        RepeatInWindow(ExampleFour, 14, 8, 8, 20);
      } else if s == 9 {
        RepeatInWindow(ExampleFour, 14, 9, 9, 17);
      } else if s == 10 {
        RepeatInWindow(ExampleFour, 14, 10, 10, 16);
      } else {
        RepeatInWindow(ExampleFour, 14, 11, 11, 15);
      }
    }
  }

  lemma ExampleFourMessage()
    ensures Marker(ExampleFour, 14) == Some(26)
  {
    ExampleFourMessageWindow();
    ExampleFourMessageEarlier();
    MarkerSomeIff(ExampleFour, 14, 26);
  }

  /** A buffer shorter than the window: no marker. */
  lemma ShortBufferHasNoMarker()
    ensures Marker([98, 118, 119], 4) == None
  {
    MarkerShortInput([98, 118, 119], 4);
  }

  /** A buffer of one repeated byte has no marker, whatever its length. */
  lemma RepeatedByteHasNoMarker(input: seq<byte>, n: nat)
    requires 2 <= n
    requires forall i :: 0 <= i < |input| ==> input[i] == input[0]
    ensures Marker(input, n) == None
  {
    forall s: nat | s + n <= |input| ensures !DistinctWindow(input, n, s) {
      assert input[s..s + n][0] == input[s..s + n][1];
    }
    MarkerNoneIff(input, n);
  }
}
