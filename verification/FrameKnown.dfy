/** The bytes of some frames, written out: two descriptors as other implementations write them, and the frame of
    no data. */
module FrameKnown {
  import opened Bytes
  import F = FrameFormat
  import opened FrameBlocks
  import opened XxHash32
  import X = XxStripes

  lemma Steps()
    ensures Byte1(0x165667b3, 100) == 0x15743680
    ensures Byte1(0x15743680, 64) == 0x0ea849d8 && Byte1(0x15743680, 112) == 0xa5df46ba
  {
  }

  lemma Starts()
    ensures Start(0, 2, Init(0)) == 0x165667b3 && Start(0, 0, Init(0)) == 0x165667b1
  {
  }

  lemma Ends()
    ensures Avalanche(0x0ea849d8) == 0x95c0a77c && Avalanche(0xa5df46ba) == 0xbb36b9b7
    ensures Avalanche(0x165667b1) == 0x02cc5d05
  {
  }

  lemma Short(a: byte, b: byte)
    ensures Hash([a, b], 0) == Avalanche(Byte1(Byte1(Start(0, 2, Init(0)), a), b))
    ensures Hash([], 0) == Avalanche(Start(0, 0, Init(0)))
  {
    hide Byte1, Avalanche, Start, Init, Stripe;
    assert [a, b][1..] == [b] && [b][1..] == [];
    assert Tail(Byte1(Start(0, 2, Init(0)), a), [b]) == Byte1(Byte1(Start(0, 2, Init(0)), a), b);
  }

  lemma Hashes()
    ensures F.Hash([100, 64]) == 0x95c0a77c && F.Hash([100, 112]) == 0xbb36b9b7 && F.Hash([]) == 0x02cc5d05
  {
    hide Hash, Byte1, Avalanche, Start, Init;
    Short(100, 64);
    Short(100, 112);
    Starts();
    Steps();
    Ends();
  }

  /** Independent blocks and a content checksum, with blocks of 64 KiB and of 4 MiB. */
  lemma HeadersKnown()
    ensures F.HeaderBytes(F.Info(false, true, 4)) == [0x04, 0x22, 0x4D, 0x18, 0x64, 0x40, 0xA7]
    ensures F.HeaderBytes(F.Info(false, true, 7)) == [0x04, 0x22, 0x4D, 0x18, 0x64, 0x70, 0xB9]
  {
    hide F.Hash;
    Hashes();
    assert F.Descriptor(F.Info(false, true, 4)) == [100, 64] && F.Descriptor(F.Info(false, true, 7)) == [100, 112];
  }

  /** The frame of no data: a header, the end mark and the hash of nothing. */
  lemma EmptyKnown(level: nat)
    ensures FrameOf(F.Info(false, true, 4), level, [], [])
            == [0x04, 0x22, 0x4D, 0x18, 0x64, 0x40, 0xA7, 0, 0, 0, 0, 0x05, 0x5D, 0xCC, 0x02]
  {
    hide F.Hash, F.HeaderBytes;
    HeadersKnown();
    Hashes();
    assert FrameBlock(level, []) == [];
    assert ToLE32(0x02cc5d05) == [0x05, 0x5D, 0xCC, 0x02];
  }
}
