/** Decoding a metadata record is the exact inverse of writing valid metadata:
    each group of fields first, then the whole record. */
module RxRecordProofs {
  import opened Wire
  import opened CsiLayouts
  import opened RxRecords
  import opened RxRecordReader

  // ------------------------------------------------------------------ identity

  lemma IdentityRead(record: bytes, i: Identity)
    requires |record| == 256
    ensures IdentityValid(i) && record[0..24] == IdentityBytes(i) <==> ReadIdentity(record) == i
  {
    hide U32, U64;
    if IdentityValid(i) {
      var seen := i.rxSequence.GetOr(U32_MAX);
      var tail := Put32(i.generation) + Put32(i.radioGeneration);
      hide Put32, Put64;
      SliceSplit(record, 0, 24, Put32(i.sequence), Put64(i.timestampUs) + (Put32(seen) + tail));
      SliceSplit(record, 4, 24, Put64(i.timestampUs), Put32(seen) + tail);
      SliceSplit(record, 12, 24, Put32(seen), tail);
      SliceSplit(record, 16, 24, Put32(i.generation), Put32(i.radioGeneration));
      Word32(record, 0, i.sequence);
      Word64(record, 4, i.timestampUs);
      Word32(record, 12, seen);
      Word32(record, 16, i.generation);
      Word32(record, 20, i.radioGeneration);
    }
  }

  // ----------------------------------------------------------------- addresses

  lemma AddressRead(record: bytes, i: nat, a: Option<bytes>)
    requires |record| == 256 && i < 5
    ensures ReadAddress(record, i) == Ok(a) <==>
            && (a.Some? ==> |a.value| == 6) && Flags16(record, 54)[i] == a.Some?
            && Mac(record, i) == AddressBytes(a)
  {
    hide Flags16, Mac;
    AllZeroIsZeros(Mac(record, i));
  }

  lemma {:induction false} AddressesSound(record: bytes, n: nat, a: Addresses)
    requires |record| == 256 && n <= 5 && AddressesTo(record, n) == Ok(a)
    ensures |a| == n
    ensures forall i :: 0 <= i < n ==> ReadAddress(record, i) == Ok(a[i])
  {
    hide ReadAddress;
    if n != 0 {
      AddressesSound(record, n - 1, AddressesTo(record, n - 1).value);
    }
  }

  lemma {:induction false} AddressesComplete(record: bytes, n: nat, a: Addresses)
    requires |record| == 256 && n <= 5 && |a| == n
    requires forall i :: 0 <= i < n ==> ReadAddress(record, i) == Ok(a[i])
    ensures AddressesTo(record, n) == Ok(a)
  {
    hide ReadAddress;
    if n != 0 {
      AddressesComplete(record, n - 1, a[..n - 1]);
      assert a == a[..n - 1] + [a[n - 1]];
    }
  }

  lemma MaskRead(mask: seq<bool>, a: Addresses)
    requires |mask| == 16 && |a| == 5
    ensures mask == AddressMask(a) <==>
            && (forall i :: 0 <= i < 5 ==> mask[i] == a[i].Some?) && forall i :: 5 <= i < 16 ==> !mask[i]
  {
  }

  lemma AddressSlices(record: bytes, a: Addresses)
    requires |record| == 256 && AddressesValid(a)
    ensures record[24..56] == AddressesBytes(a) <==>
            && (forall i :: 0 <= i < 5 ==> Mac(record, i) == AddressBytes(a[i]))
            && Flags16(record, 54) == AddressMask(a)
  {
    hide AddressBytes, AddressMask, PutFlags16, Flags16;
    var b0, b1, b2, b3, b4 := AddressBytes(a[0]), AddressBytes(a[1]), AddressBytes(a[2]), AddressBytes(a[3]), AddressBytes(a[4]);
    var m := PutFlags16(AddressMask(a));
    SliceSplit(record, 24, 56, b0, b1 + (b2 + (b3 + (b4 + m))));
    SliceSplit(record, 30, 56, b1, b2 + (b3 + (b4 + m)));
    SliceSplit(record, 36, 56, b2, b3 + (b4 + m));
    SliceSplit(record, 42, 56, b3, b4 + m);
    SliceSplit(record, 48, 56, b4, m);
    FlagWord16(record, 54, AddressMask(a));
    assert Mac(record, 0) == record[24..30] && Mac(record, 1) == record[30..36] && Mac(record, 2) == record[36..42]
        && Mac(record, 3) == record[42..48] && Mac(record, 4) == record[48..54];
  }

  lemma AddressesSoundAll(record: bytes, a: Addresses)
    requires |record| == 256 && ReadAddresses(record) == Ok(a)
    ensures AddressesValid(a) && record[24..56] == AddressesBytes(a)
  {
    hide ReadAddress, Flags16, AddressMask, AddressesBytes, Mac, AddressBytes, AddressesTo;
    AddressesSound(record, 5, a);
    forall i | 0 <= i < 5
      ensures a[i].Some? ==> |a[i].value| == 6
      ensures Flags16(record, 54)[i] == a[i].Some?
      ensures (a[i].Some? ==> |a[i].value| == 6) ==> Mac(record, i) == AddressBytes(a[i])
    {
      AddressRead(record, i, a[i]);
    }
    MaskRead(Flags16(record, 54), a);
    AddressSlices(record, a);
  }

  lemma AddressesCompleteAll(record: bytes, a: Addresses)
    requires |record| == 256 && AddressesValid(a) && record[24..56] == AddressesBytes(a)
    ensures ReadAddresses(record) == Ok(a)
  {
    hide ReadAddress, Flags16, AddressMask, AddressesBytes, Mac, AddressBytes, AddressesTo;
    AddressSlices(record, a);
    MaskRead(Flags16(record, 54), a);
    forall i | 0 <= i < 5
      ensures ReadAddress(record, i) == Ok(a[i])
    {
      AddressRead(record, i, a[i]);
    }
    AddressesComplete(record, 5, a);
  }

  // --------------------------------------------------------------------- radio

  lemma RadioBitsRead(rx: seq<bool>, b: RadioBits)
    requires |rx| == 32
    ensures ReadRadioBits(rx) == Ok(b) <==>
            && rx[4] == b.stbc.Some? && rx[5] == IsTrue(b.stbc)
            && rx[17] == b.smoothing.Some? && rx[6] == IsTrue(b.smoothing)
            && rx[7] == b.sounding.Some? && rx[8] == IsTrue(b.sounding)
            && rx[9] == b.aggregation.Some? && rx[10] == IsTrue(b.aggregation)
            && rx[11] == b.ldpc.Some? && rx[12] == IsTrue(b.ldpc)
            && rx[13] == b.shortGi.Some? && rx[14] == IsTrue(b.shortGi)
            && rx[15] == b.channelEstimateValid.Some? && rx[16] == IsTrue(b.channelEstimateValid)
            && rx[18] == b.dcm.Some? && rx[19] == IsTrue(b.dcm)
            && forall i :: 20 <= i < 32 ==> !rx[i]
  {
    hide OptionalBool;
    BitRead(rx, 5, 4, b.stbc);
    BitRead(rx, 6, 17, b.smoothing);
    BitRead(rx, 8, 7, b.sounding);
    BitRead(rx, 10, 9, b.aggregation);
    BitRead(rx, 12, 11, b.ldpc);
    BitRead(rx, 14, 13, b.shortGi);
    BitRead(rx, 16, 15, b.channelEstimateValid);
    BitRead(rx, 19, 18, b.dcm);
  }

  lemma BitRead(rx: seq<bool>, value: nat, available: nat, b: Option<bool>)
    requires value < |rx| && available < |rx|
    ensures OptionalBool(rx, value, available) == Ok(b) <==> rx[available] == b.Some? && rx[value] == IsTrue(b)
  {
  }

  function BitsOf(r: Radio): RadioBits {
    RadioBits(r.stbc, r.smoothing, r.sounding, r.aggregation, r.ldpc, r.shortGi, r.channelEstimateValid, r.dcm)
  }

  /** What each bit of the radio flag word stands for. */
  predicate FlagsListed(rx: seq<bool>, r: Radio)
    requires |rx| == 32
  {
    && rx[0] == r.noiseFloor.Some? && rx[1] == r.antenna.Some? && rx[2] == r.mcs.Some?
    && rx[3] == r.bandwidthMhz.Some?
    && rx[4] == r.stbc.Some? && rx[5] == IsTrue(r.stbc)
    && rx[17] == r.smoothing.Some? && rx[6] == IsTrue(r.smoothing)
    && rx[7] == r.sounding.Some? && rx[8] == IsTrue(r.sounding)
    && rx[9] == r.aggregation.Some? && rx[10] == IsTrue(r.aggregation)
    && rx[11] == r.ldpc.Some? && rx[12] == IsTrue(r.ldpc)
    && rx[13] == r.shortGi.Some? && rx[14] == IsTrue(r.shortGi)
    && rx[15] == r.channelEstimateValid.Some? && rx[16] == IsTrue(r.channelEstimateValid)
    && rx[18] == r.dcm.Some? && rx[19] == IsTrue(r.dcm)
    && forall i :: 20 <= i < 32 ==> !rx[i]
  }

  lemma RadioFlagsRead(rx: seq<bool>, r: Radio)
    requires |rx| == 32
    ensures rx == RadioFlags(r) <==>
            && ReadRadioBits(rx) == Ok(BitsOf(r))
            && rx[0] == r.noiseFloor.Some? && rx[1] == r.antenna.Some? && rx[2] == r.mcs.Some?
            && rx[3] == r.bandwidthMhz.Some?
  {
    hide ReadRadioBits, RadioFlags;
    RadioBitsRead(rx, BitsOf(r));
    if rx == RadioFlags(r) {
      FlagsSound(rx, r);
    }
    if FlagsListed(rx, r) {
      FlagsComplete(rx, r);
    }
  }

  lemma FlagsSound(rx: seq<bool>, r: Radio)
    requires |rx| == 32 && rx == RadioFlags(r)
    ensures FlagsListed(rx, r)
  {
    hide IsTrue, RadioFlag, RadioFlags;
    FlagBits0(r);
    FlagBits1(r);
    FlagBits2(r);
    FlagBlocks(rx, r);
  }

  lemma FlagsComplete(rx: seq<bool>, r: Radio)
    requires |rx| == 32 && FlagsListed(rx, r)
    ensures rx == RadioFlags(r)
  {
    hide IsTrue, RadioFlag, RadioFlags;
    FlagBits0(r);
    FlagBits1(r);
    FlagBits2(r);
    FlagBlocks(rx, r);
  }

  lemma FlagBits0(r: Radio)
    ensures RadioFlag(r, 0) == r.noiseFloor.Some? && RadioFlag(r, 1) == r.antenna.Some?
    ensures RadioFlag(r, 2) == r.mcs.Some? && RadioFlag(r, 3) == r.bandwidthMhz.Some?
    ensures RadioFlag(r, 4) == r.stbc.Some? && RadioFlag(r, 5) == IsTrue(r.stbc)
    ensures RadioFlag(r, 6) == IsTrue(r.smoothing) && RadioFlag(r, 7) == r.sounding.Some?
  {
  }

  lemma FlagBits1(r: Radio)
    ensures RadioFlag(r, 8) == IsTrue(r.sounding) && RadioFlag(r, 9) == r.aggregation.Some?
    ensures RadioFlag(r, 10) == IsTrue(r.aggregation) && RadioFlag(r, 11) == r.ldpc.Some?
    ensures RadioFlag(r, 12) == IsTrue(r.ldpc) && RadioFlag(r, 13) == r.shortGi.Some?
    ensures RadioFlag(r, 14) == IsTrue(r.shortGi) && RadioFlag(r, 15) == r.channelEstimateValid.Some?
  {
  }

  lemma FlagBits2(r: Radio)
    ensures RadioFlag(r, 16) == IsTrue(r.channelEstimateValid) && RadioFlag(r, 17) == r.smoothing.Some?
    ensures RadioFlag(r, 18) == r.dcm.Some? && RadioFlag(r, 19) == IsTrue(r.dcm)
    ensures forall i :: 20 <= i < 32 ==> !RadioFlag(r, i)
  {
  }

  /** Two flag words agree when their five blocks do. */
  lemma FlagBlocks(rx: seq<bool>, r: Radio)
    requires |rx| == 32 && forall i :: 20 <= i < 32 ==> !RadioFlag(r, i)
    ensures rx == RadioFlags(r) <==>
            && (forall i :: 20 <= i < 32 ==> !rx[i])
            && rx[0] == RadioFlag(r, 0) && rx[1] == RadioFlag(r, 1) && rx[2] == RadioFlag(r, 2)
            && rx[3] == RadioFlag(r, 3) && rx[4] == RadioFlag(r, 4) && rx[5] == RadioFlag(r, 5)
            && rx[6] == RadioFlag(r, 6) && rx[7] == RadioFlag(r, 7) && rx[8] == RadioFlag(r, 8)
            && rx[9] == RadioFlag(r, 9) && rx[10] == RadioFlag(r, 10) && rx[11] == RadioFlag(r, 11)
            && rx[12] == RadioFlag(r, 12) && rx[13] == RadioFlag(r, 13) && rx[14] == RadioFlag(r, 14)
            && rx[15] == RadioFlag(r, 15) && rx[16] == RadioFlag(r, 16) && rx[17] == RadioFlag(r, 17)
            && rx[18] == RadioFlag(r, 18) && rx[19] == RadioFlag(r, 19)
  {
    hide RadioFlag;
    var f := RadioFlags(r);
    assert rx == rx[0..5] + rx[5..10] + rx[10..15] + rx[15..20] + rx[20..32];
    assert f == f[0..5] + f[5..10] + f[10..15] + f[15..20] + f[20..32];
    assert forall i :: 20 <= i < 32 ==> f[i] == RadioFlag(r, i);
    if forall i :: 20 <= i < 32 ==> !rx[i] {
      assert rx[20..32] == f[20..32];
    }
  }

  lemma PhyCodes(c: byte, p: Phy)
    ensures PhyOf(c) == Some(p) <==> PhyCode(p) == c
    ensures PhyCode(p) == c ==> (IsHe(p) <==> 3 <= c <= 6) && (p in {Ht, Vht} <==> c in {1, 2})
  {
  }

  lemma SecondaryCodes(c: byte, s: Secondary)
    ensures SecondaryOf(c) == Some(s) <==> SecondaryCode(s) == c
  {
  }

  predicate SymbolValid(gi: Option<nat>, ltf: Option<nat>, phy: Phy, bits: RadioBits) {
    && (gi.Some? ==> GuardIntervalValid(gi.value, phy, bits.shortGi))
    && (ltf.Some? ==> ltf.value in {1, 2, 4})
    && (ltf.Some? || bits.dcm.Some? ==> IsHe(phy))
  }

  lemma GuardIntervalNonzero(gi: Option<nat>, phy: Phy, shortGi: Option<bool>)
    requires gi.Some? ==> GuardIntervalValid(gi.value, phy, shortGi)
    ensures NonzeroOption(gi.GetOr(0)) == gi
  {
  }

  lemma SymbolRead(gi: nat, ltf: nat, c: byte, phy: Phy, bits: RadioBits)
    requires PhyCode(phy) == c
    ensures SymbolChecks(gi, ltf, c, bits) <==> SymbolValid(NonzeroOption(gi), NonzeroOption(ltf), phy, bits)
  {
    hide PhyCode;
    PhyCodes(c, phy);
  }

  lemma ScalarRead(available: bool, value: int, sentinel: int, v: Option<int>)
    ensures Scalar(available, value, sentinel) == Ok(v) <==>
            && available == v.Some? && value == v.GetOr(sentinel)
            && (v.Some? && sentinel != 0 ==> v.value != sentinel)
  {
  }

  /** Field by field, what it takes for a record to hold the radio facts. */
  predicate RadioHeld(record: bytes, r: Radio)
    requires |record| == 256
  {
    && RadioValid(r)
    && record[56..64] == RadioBytes(r)
    && Flags32(record, 64) == RadioFlags(r)
    && record[124..128] == SymbolBytes(r)
  }

  lemma RadioByteList(record: bytes, r: Radio)
    requires |record| == 256 && RadioValid(r)
    ensures record[56..64] == RadioBytes(r) <==>
            && I8(record[56]) == r.rssi && I8(record[57]) == r.noiseFloor.GetOr(0) && record[58] == r.channel
            && record[59] == SecondaryCode(r.secondary) && record[60] as int == r.antenna.GetOr(255)
            && record[61] == PhyCode(r.phy) && record[62] as int == r.bandwidthMhz.GetOr(0)
            && record[63] as int == r.mcs.GetOr(255)
  {
    hide SecondaryCode, PhyCode, GuardIntervalValid;
    var b := record[56..64];
    assert b[0] == record[56] && b[1] == record[57] && b[2] == record[58] && b[3] == record[59];
    assert b[4] == record[60] && b[5] == record[61] && b[6] == record[62] && b[7] == record[63];
  }

  lemma SymbolByteList(record: bytes, r: Radio)
    requires |record| == 256 && RadioValid(r)
    ensures record[124..128] == SymbolBytes(r) <==>
            && U16(record, 124) == r.guardIntervalNs.GetOr(0) && record[126] as int == r.heLtfSize.GetOr(0)
            && record[127] == 0
  {
    hide U16;
    var gi := Put16(r.guardIntervalNs.GetOr(0));
    var rest: bytes := [r.heLtfSize.GetOr(0), 0];
    SliceSplit(record, 124, 128, gi, rest);
    Word16(record, 124, r.guardIntervalNs.GetOr(0));
    var b := record[126..128];
    assert b[0] == record[126] && b[1] == record[127];
  }

  lemma RadioSound(record: bytes, r: Radio)
    requires |record| == 256 && ReadRadio(record) == Ok(r) && record[127] == 0
    ensures RadioHeld(record, r)
  {
    hide Flags32, U16, I8, ReadRadioBits, Scalar, SymbolChecks, PhyOf, PhyCode, SecondaryOf, SecondaryCode, GuardIntervalValid;
    hide RadioBytes, SymbolBytes, RadioFlags;
    var rx := Flags32(record, 64);
    PhyCodes(record[61], r.phy);
    SecondaryCodes(record[59], r.secondary);
    SymbolRead(U16(record, 124), record[126], record[61], r.phy, BitsOf(r));
    ScalarRead(rx[0], I8(record[57]), 0, r.noiseFloor);
    ScalarRead(rx[1], record[60], 255, r.antenna);
    ScalarRead(rx[2], record[63], 255, r.mcs);
    ScalarRead(rx[3], record[62], 0, r.bandwidthMhz);
    RadioFlagsRead(rx, r);
    assert RadioValid(r);
    RadioByteList(record, r);
    SymbolByteList(record, r);
  }

  lemma RadioComplete(record: bytes, r: Radio)
    requires |record| == 256 && RadioHeld(record, r)
    ensures ReadRadio(record) == Ok(r) && record[127] == 0
  {
    hide Flags32, U16, I8, ReadRadioBits, Scalar, SymbolChecks, PhyOf, PhyCode, SecondaryOf, SecondaryCode, GuardIntervalValid;
    hide RadioBytes, SymbolBytes, RadioFlags;
    var rx := Flags32(record, 64);
    RadioByteList(record, r);
    SymbolByteList(record, r);
    GuardIntervalNonzero(r.guardIntervalNs, r.phy, r.shortGi);
    PhyCodes(record[61], r.phy);
    SecondaryCodes(record[59], r.secondary);
    SymbolRead(U16(record, 124), record[126], record[61], r.phy, BitsOf(r));
    ScalarRead(rx[0], I8(record[57]), 0, r.noiseFloor);
    ScalarRead(rx[1], record[60], 255, r.antenna);
    ScalarRead(rx[2], record[63], 255, r.mcs);
    ScalarRead(rx[3], record[62], 0, r.bandwidthMhz);
    RadioFlagsRead(rx, r);
  }
}
