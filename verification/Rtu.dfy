/**
 RTU frames, `mb_rtu.c`: the slave's address, the protocol data unit and the checksum, low byte first
 (section 2.5.1 of MODBUS over Serial Line V1.02). The serial line is a sequence of received bytes.
 */
module Rtu {
  import opened Coils
  import opened Crc
  import opened Pdu
  import opened MbCommon

  // The whole frame for a request or a reply.
  function RtuFrame(addr: bv8, pdu: seq<bv8>): seq<bv8> {
    Frame([addr] + pdu)
  }

  // The checksum as it is read: behind what was decoded, or zero if there are no two bytes left.
  function ReadChecksum(received: seq<bv8>, at: nat): bv16 {
    WordAt(received, at, 0)
  }

  function Wide16(b: bv8): bv16 {
    b as bv16
  }

  predicate AddressMatches(received: seq<bv8>, addr: bv16)
    requires received != []
  {
    Wide16(received[0]) == addr
  }

  // The two checks of mb_rtu_recv.
  predicate RtuAccepts(received: seq<bv8>, addr: bv16, stale: Info)
    requires |received| >= 2 && Sized(stale)
  {
    && AddressMatches(received, addr)
    && ReadChecksum(received, Decoded(received, 1, stale).offset) == Checksum(received[..|received| - 2])
  }

  // The three parts stored one after the other are the frame, if they fit.
  lemma FrameStored(room: nat, addr: bv8, pdu: seq<bv8>, s1: seq<bv8>, s2: seq<bv8>, s3: seq<bv8>)
    requires s1 == Store([], room, [addr])
    requires |s2| <= |s1| + |pdu| && (|s2| == |s1| + |pdu| <==> |s1| + |pdu| <= room)
    requires |s2| == |s1| + |pdu| ==> s2 == s1 + pdu
    requires s3 == Store(s2, room, Stored(Checksum(s2)))
    ensures |s3| == |pdu| + 3 <==> |pdu| + 3 <= room
    ensures |s3| == |pdu| + 3 ==> s3 == RtuFrame(addr, pdu)
  {
    hide Checksum, Low, High;
    assert [] + [addr] == [addr];
  }

  class MbRtu {
    const mb: MbData
    // rtu_info[MB_TX] and rtu_info[MB_RX]
    const slaverAddr: bv16
    var txChecksum: bv16
    var rxAddr: bv16
    var rxChecksum: bv16

    constructor (maxDataSize: nat, addr: bv16)
      requires maxDataSize < 0x10000
      ensures mb.Valid() && fresh(mb) && fresh(mb.data) && mb.maxDataLen == maxDataSize && slaverAddr == addr
    {
      mb := new MbData(maxDataSize);
      slaverAddr := addr;
      txChecksum, rxAddr, rxChecksum := 0, 0, 0;
    }

    // mbrtu_slaveaddr_encap
    method SlaveAddrEncap()
      requires mb.Valid()
      modifies mb`operateDataLen, mb`dataLen, mb.data
      ensures mb.dataLen <= mb.data.Length
      ensures mb.Bytes() == Store(old(mb.Bytes()), mb.maxDataLen, [Low(slaverAddr)])
      ensures mb.operateDataLen == Wrap16(old(mb.operateDataLen) + 1)
      ensures mb.Valid()
    {
      hide Wrap16, Store, Low;
      mb.ByteSet(Low(slaverAddr));
    }

    // mbrtu_crc_encap
    method CrcEncap()
      requires mb.Valid()
      modifies this`txChecksum, mb`operateDataLen, mb`dataLen, mb.data
      ensures mb.dataLen <= mb.data.Length && txChecksum == Checksum(old(mb.Bytes()))
      ensures mb.Bytes() == Store(old(mb.Bytes()), mb.maxDataLen, Stored(txChecksum))
      ensures mb.operateDataLen == Wrap16(old(mb.operateDataLen) + 2)
      ensures mb.Valid()
    {
      mb.ValidFacts();
      hide Wrap16, Store, Checksum, Swap, Stored;
      var crc := CrcCalc(mb.data, mb.dataLen);
      if !mb.isBigEndian {
        crc := Swap(crc);
      }
      mb.WordSet(crc);
      txChecksum := crc;
    }

    // mb_rtu_send up to the line: the frame for the request if it fits, which the lengths tell.
    method Send() returns (sent: seq<bv8>)
      requires mb.Valid() && Readable(mb.info)
      modifies this`txChecksum, mb`operateDataLen, mb`dataLen, mb`offset, mb.data
      ensures mb.dataLen <= mb.data.Length && sent == mb.Bytes()
      ensures mb.operateDataLen == |Encoded(mb.info)| + 3
      ensures mb.dataLen == mb.operateDataLen <==> |Encoded(mb.info)| + 3 <= mb.maxDataLen
      ensures mb.dataLen == mb.operateDataLen ==> sent == RtuFrame(Low(slaverAddr), Encoded(mb.info))
      ensures mb.Valid()
    {
      hide *;
      EncodedSize(mb.info);
      mb.ValidFacts();
      mb.Clear();
      mb.ValidFacts();
      SlaveAddrEncap();
      mb.ValidFacts();
      ghost var s1 := mb.Bytes();
      mb.Encap();
      mb.ValidFacts();
      ghost var s2 := mb.Bytes();
      CrcEncap();
      mb.ValidFacts();
      sent := mb.data[..mb.dataLen];
      FrameStored(mb.maxDataLen, Low(slaverAddr), Encoded(mb.info), s1, s2, sent);
    }

    // mbrtu_slaveaddr_decap_check
    method SlaveAddrDecapCheck() returns (ret: int)
      requires mb.Valid() && mb.offset == 0 && mb.dataLen > 0
      modifies this`rxAddr, mb`operateDataLen, mb`offset
      ensures rxAddr == Wide16(mb.Bytes()[0])
      ensures ret == if rxAddr == slaverAddr then 0 else -1
      ensures mb.offset == 1
      ensures mb.Valid()
    {
      hide Wide16, Low;
      var addr := mb.ByteGet(Low(rxAddr));
      rxAddr := Wide16(addr);
      if rxAddr != slaverAddr {
        return -1;
      }
      return 0;
    }

    // mbrtu_crc_decap_check
    method CrcDecapCheck() returns (ret: int)
      requires mb.Valid() && mb.dataLen >= 2
      modifies this`rxChecksum, mb`operateDataLen, mb`offset, mb`dataLen
      ensures mb.dataLen == old(mb.dataLen) - 2
      ensures rxChecksum == ReadChecksum(old(mb.Bytes()), old(mb.offset))
      ensures ret == if Checksum(old(mb.Bytes())[..old(mb.dataLen) - 2]) == rxChecksum then 0 else -1
      ensures mb.Valid()
    {
      mb.ValidFacts();
      hide Checksum, WordAt, Wrap16, Past, Swap, IsBigEndian, Sized;
      ghost var bytes := mb.Bytes();
      var crc := mb.WordGet(0);
      if !mb.isBigEndian {
        crc := Swap(crc);
      }
      rxChecksum := crc;
      mb.dataLen := mb.dataLen - 2;
      crc := CrcCalc(mb.data, mb.dataLen);
      assert mb.data[..mb.dataLen] == bytes[..|bytes| - 2];
      if crc != rxChecksum {
        return -1;
      }
      return 0;
    }

    // mb_rtu_recv behind the line. The fields are overwritten before the checksum is looked at.
    method Recv(received: seq<bv8>) returns (ret: int)
      requires mb.Valid() && 2 <= |received| <= mb.maxDataLen
      modifies this`rxAddr, this`rxChecksum, mb, mb.data
      ensures ret == if RtuAccepts(received, slaverAddr, old(mb.info)) then |received| else -1
      ensures mb.info == if AddressMatches(received, slaverAddr) then Decoded(received, 1, old(mb.info)).info
                         else old(mb.info)
      ensures mb.Valid()
    {
      mb.ValidFacts();
      ghost var stale := mb.info;
      hide Decoded, Checksum, WordAt, Wrap16, Past, Sized, Wide16;
      mb.Receive(received);
      var length := |received|;
      var check := SlaveAddrDecapCheck();
      if check < 0 {
        return -1;
      }
      mb.Decap();
      check := CrcDecapCheck();
      if check != 0 {
        return -1;
      }
      return length;
    }
  }

  // ---------------------------------------------------------------------------------------------
  // What is accepted

  lemma FrameParts(addr: bv8, pdu: seq<bv8>)
    ensures var f := RtuFrame(addr, pdu);
      && |f| == |pdu| + 3 && f[0] == addr && f[1..|pdu| + 1] == pdu
      && f[..|f| - 2] == [addr] + pdu
      && f[|pdu| + 1] == Low(Checksum([addr] + pdu)) && f[|pdu| + 2] == High(Checksum([addr] + pdu))
  {
    hide Checksum, Low, High;
    var f := RtuFrame(addr, pdu);
    assert f[1..|pdu| + 1] == pdu;
  }

  // Any reply of the addressed slave is accepted and yields its fields, whatever was in the fields
  // before; but a register reply of odd length only if its checksum happens to be zero, which is what
  // a checksum that cannot be read counts as. Its fields are its own in any case: the loop then takes
  // the first checksum byte as one more value. Addresses above 255 are never matched.
  lemma ReplyAccepted(slaverAddr: bv16, addr: bv8, r: Reply, stale: Info)
    requires Sized(stale) && WellFormed(r)
    ensures RtuAccepts(RtuFrame(addr, ReplyBytes(r)), slaverAddr, stale) <==>
      addr as bv16 == slaverAddr && (Even(r) || Checksum([addr] + ReplyBytes(r)) == 0)
    ensures var d := Decoded(RtuFrame(addr, ReplyBytes(r)), 1, stale);
      Sized(d.info) && Yields(d.info, r) && d.offset == |ReplyBytes(r)| + (if Even(r) then 1 else 2)
  {
    var pdu := ReplyBytes(r);
    var f := RtuFrame(addr, pdu);
    FrameParts(addr, pdu);
    var c := Checksum([addr] + pdu);
    WordStored(c);
    hide Decoded, Checksum, Even, WellFormed, ReplyBytes, WordOf, Low, High, Yields, RtuFrame;
    DecodesReply(f, 1, r, stale);
  }

  lemma OneReplyIs(code: bv8, reg: bv16, first: bv8, second: bv8)
    requires code == 0x05 || code == 0x06
    ensures WellFormed(OneReply(code, reg, first, second)) && Even(OneReply(code, reg, first, second))
  {
  }

  // The echo of a 5 or 6 request is the request's own frame.
  lemma RequestEchoed(slaverAddr: bv16, addr: bv8, info: Info, stale: Info)
    requires Readable(info) && Sized(stale) && (info.code == 0x05 || info.code == 0x06) && addr as bv16 == slaverAddr
    ensures var f := RtuFrame(addr, Encoded(info));
      && RtuAccepts(f, slaverAddr, stale)
      && var back := Decoded(f, 1, stale).info;
        Sized(back) && back.code == info.code && back.reg == info.reg && back.value[..2] == info.value[..2]
  {
    var r := OneReply(info.code, info.reg, info.value[0], info.value[1]);
    EchoIsReply(info);
    OneReplyIs(info.code, info.reg, info.value[0], info.value[1]);
    hide Decoded, RtuAccepts, Encoded, Readable, Wide16, KindOf, ReplyBytes, RtuFrame, Checksum, WellFormed, Even;
    ReplyAccepted(slaverAddr, addr, r, stale);
    var back := Decoded(RtuFrame(addr, ReplyBytes(r)), 1, stale).info;
    assert back.value[..2] == [back.value[0], back.value[1]];
    assert info.value[..2] == [info.value[0], info.value[1]];
  }

  // The reply to a 0x0F or 0x10 request echoes its first five bytes.
  lemma HeadEchoed(slaverAddr: bv16, addr: bv8, info: Info, stale: Info)
    requires Readable(info) && Sized(stale) && addr as bv16 == slaverAddr
    requires info.code == 0x0F || info.code == 0x10
    ensures |Encoded(info)| >= 5
    ensures var f := RtuFrame(addr, Encoded(info)[..5]);
      && RtuAccepts(f, slaverAddr, stale)
      && var back := Decoded(f, 1, stale).info;
        back.code == info.code && back.reg == info.reg && back.nReg == info.nReg
  {
    EchoIsReply(info);
    ReplyAccepted(slaverAddr, addr, ManyReply(info.code, info.reg, info.nReg), stale);
    hide Decoded, RtuAccepts, Readable, Wide16, KindOf, ReplyBytes, RtuFrame;
  }

  // A frame with a burst error of up to 16 bits is accepted exactly if it has the right address, decoding its damaged
  // fields ends elsewhere than at the last two bytes, and the word there happens to be the checksum.
  lemma BurstAccepted(sent: seq<bv8>, received: seq<bv8>, p: nat, addr: bv16, stale: Info)
    requires Accepted(sent) && |sent| == |received| && sent != received && Sized(stale)
    requires forall k :: 0 <= k < 8 * |sent| && Bits(sent)[k] != Bits(received)[k] ==> p <= k < p + 16
    ensures RtuAccepts(received, addr, stale) <==>
      && AddressMatches(received, addr)
      && Decoded(received, 1, stale).offset != |received| - 2
      && ReadChecksum(received, Decoded(received, 1, stale).offset) == Checksum(received[..|received| - 2])
  {
    if RtuAccepts(received, addr, stale) && Decoded(received, 1, stale).offset == |received| - 2 {
      ReadAtEnd(received, addr, stale);
      BurstDetected(sent, received, p);
    }
  }

  // So the frame of an even reply is refused after any burst error that spares its function code and,
  // if it carries values, its byte count.
  lemma BurstRefused(slave: bv8, r: Reply, received: seq<bv8>, p: nat, addr: bv16, stale: Info)
    requires WellFormed(r) && Even(r) && Sized(stale)
    requires var sent := RtuFrame(slave, ReplyBytes(r));
      && |sent| == |received| && sent != received
      && (forall k :: 0 <= k < 8 * |sent| && Bits(sent)[k] != Bits(received)[k] ==> p <= k < p + 16)
      && received[1] == r.code
      && (r.BitsReply? || r.WordsReply? ==> |received| > 2 && received[2] == CountOf(|r.data|))
    ensures !RtuAccepts(received, addr, stale)
  {
    hide *;
    var sent := RtuFrame(slave, ReplyBytes(r));
    FrameParts(slave, ReplyBytes(r));
    FrameIs(slave, ReplyBytes(r));
    FrameAccepted([slave] + ReplyBytes(r));
    BurstAccepted(sent, received, p, addr, stale);
    EndsThere(received, r, stale);
  }

  lemma FrameIs(addr: bv8, pdu: seq<bv8>)
    ensures RtuFrame(addr, pdu) == Frame([addr] + pdu)
  {
  }

  // With code and byte count as sent, decoding ends where it should, whatever the other bytes.
  lemma EndsThere(received: seq<bv8>, r: Reply, stale: Info)
    requires WellFormed(r) && Even(r) && Sized(stale) && |received| == |ReplyBytes(r)| + 3
    requires received[1] == r.code
    requires r.BitsReply? || r.WordsReply? ==> |received| > 2 && received[2] == CountOf(|r.data|)
    ensures Decoded(received, 1, stale).offset == |received| - 2
  {
    DecodedCases(received, 1, stale);
    if r.BitsReply? || r.WordsReply? {
      CountKept(|r.data|);
      DecodedPayload(received, 1, stale, r.code);
      PayloadRead(received, 2, stale.(code := r.code), r.WordsReply?);
      hide CountOf, Size, Payload, Decoded;
    } else if !r.ErrorReply? {
      NoErrorKind(r.code);
      hide KindOf, Decoded, Swap, WordOf;
    }
  }

  // One flipped bit in the function code makes this reply to a read of eight coils an exception reply of
  // two bytes, and the two bytes behind those are the checksum of the damaged frame.
  lemma FlippedCode(stale: Info) returns (sent: seq<bv8>, received: seq<bv8>)
    requires Sized(stale)
    ensures sent == RtuFrame(0x6b, ReplyBytes(BitsReply(1, [0x4c]))) && |sent| == 6 && received == sent[1 := 0x81]
    ensures forall k :: 0 <= k < 48 && Bits(sent)[k] != Bits(received)[k] ==> k == 15
    ensures RtuAccepts(received, 0x6b, stale)
  {
    hide *;
    sent, received := [0x6b, 1, 1, 0x4c, 0x4d, 0xa5], [0x6b, 0x81, 1, 0x4c, 0x4d, 0xa5];
    FlippedCodeChecksums();
    FrameOfFour(0x6b, 1, 1, 0x4c, 0xa54d);
    OneBitsReply(1, 0x4c);
    WordHalves(0x4d, 0xa5);
    FlippedParts();
    OneFlip(sent, 1, 0x81, 7);
    FlippedEnds(received, stale);
    assert received[..4] == [0x6b, 0x81, 1, 0x4c] && sent[1 := 0x81] == received;
    AcceptsIs(received, 0x6b, stale);
  }

  lemma FlippedParts()
    ensures WordOf(0x4d, 0xa5) == 0xa54d && WordOf(0x4c, 0x4d) == 0x4d4c && WordOf(0x61, 0xc0) == 0xc061
    ensures Wide16(0x6b) == 0x6b && Wide16(1) == 1
    ensures forall j: nat :: j < 8 && Bit(1, j) != Bit(0x81, j) ==> j == 7
  {
  }

  // A flip in one byte is one in the frame.
  lemma OneFlip(s: seq<bv8>, i: nat, b: bv8, j: nat)
    requires i < |s| && forall m: nat :: m < 8 && Bit(s[i], m) != Bit(b, m) ==> m == j
    ensures forall k :: 0 <= k < 8 * |s| && Bits(s)[k] != Bits(s[i := b])[k] ==> k == 8 * i + j
  {
    hide Bit;
    forall k | 0 <= k < 8 * |s| && Bits(s)[k] != Bits(s[i := b])[k] ensures k == 8 * i + j {
      assert k / 8 == i;
    }
  }

  lemma AcceptsIs(received: seq<bv8>, addr: bv16, stale: Info)
    requires |received| >= 2 && Sized(stale)
    ensures RtuAccepts(received, addr, stale) <==>
      && AddressMatches(received, addr)
      && ReadChecksum(received, Decoded(received, 1, stale).offset) == Checksum(received[..|received| - 2])
    ensures AddressMatches(received, addr) <==> Wide16(received[0]) == addr
  {
  }

  // Where decoding of the two damaged frames ends.
  lemma FlippedEnds(received: seq<bv8>, stale: Info)
    requires Sized(stale) && |received| == 6
    ensures ReadChecksum(received, 3) == WordOf(received[3], received[4]) && ReadChecksum(received, 6) == 0
    ensures received[1] == 0x81 ==> Decoded(received, 1, stale).offset == 3
    ensures received[1] == 2 && received[2] == 0x81 ==> Decoded(received, 1, stale).offset == 6
  {
    DecodedCases(received, 1, stale);
    hide Decoded, WordOf;
  }

  // One flipped bit in the byte count of this reply to a read of eight inputs makes the receiver take the
  // checksum for values; none is left, so zero is read, and the damaged frame has checksum zero.
  lemma FlippedCount(stale: Info) returns (sent: seq<bv8>, received: seq<bv8>)
    requires Sized(stale)
    ensures sent == RtuFrame(1, ReplyBytes(BitsReply(2, [0xe1]))) && |sent| == 6 && received == sent[2 := 0x81]
    ensures forall k :: 0 <= k < 48 && Bits(sent)[k] != Bits(received)[k] ==> k == 23
    ensures RtuAccepts(received, 1, stale)
  {
    hide *;
    sent, received := [1, 2, 1, 0xe1, 0x61, 0xc0], [1, 2, 0x81, 0xe1, 0x61, 0xc0];
    FlippedCountChecksums();
    FrameOfFour(1, 2, 1, 0xe1, 0xc061);
    OneBitsReply(2, 0xe1);
    WordHalves(0x61, 0xc0);
    FlippedParts();
    OneFlip(sent, 2, 0x81, 7);
    FlippedEnds(received, stale);
    assert received[..4] == [1, 2, 0x81, 0xe1] && sent[2 := 0x81] == received;
    AcceptsIs(received, 1, stale);
  }

  lemma FrameOfFour(a: bv8, b: bv8, c: bv8, d: bv8, checksum: bv16)
    requires Checksum([a, b, c, d]) == checksum
    ensures RtuFrame(a, [b, c, d]) == [a, b, c, d, Low(checksum), High(checksum)]
  {
    hide Checksum, Low, High;
    assert [a] + [b, c, d] == [a, b, c, d];
  }

  lemma OneBitsReply(code: bv8, value: bv8)
    ensures ReplyBytes(BitsReply(code, [value])) == [code, 1, value]
  {
  }

  lemma FlippedCodeChecksums()
    ensures Checksum([0x6b, 1, 1, 0x4c]) == 0xa54d && Checksum([0x6b, 0x81, 1, 0x4c]) == 0x4d4c
  {
    ChecksumOfFour(0x6b, 1, 1, 0x4c);
    ChecksumOfFour(0x6b, 0x81, 1, 0x4c);
    FedByte(0xffff, 0x6b);
    FedByte(0xaffe, 1);
    FedByte(0x40ef, 1);
    FedByte(0x4cc0, 0x4c);
    FedByte(0xaffe, 0x81);
    FedByte(0xe0ee, 1);
    FedByte(0x8ca1, 0x4c);
    hide Checksum, FeedByte;
  }

  lemma FlippedCountChecksums()
    ensures Checksum([1, 2, 1, 0xe1]) == 0xc061 && Checksum([1, 2, 0x81, 0xe1]) == 0
  {
    ChecksumOfFour(1, 2, 1, 0xe1);
    ChecksumOfFour(1, 2, 0x81, 0xe1);
    FedByte(0xffff, 1);
    FedByte(0x807e, 2);
    FedByte(0xe181, 1);
    FedByte(0xa0e0, 0xe1);
    FedByte(0xe181, 0x81);
    FedByte(0x00e1, 0xe1);
    hide Checksum, FeedByte;
  }

  // With nothing between the decoded fields and the checksum, the receiver's check is that of Crc.
  lemma ReadAtEnd(received: seq<bv8>, addr: bv16, stale: Info)
    requires |received| >= 2 && Sized(stale) && Decoded(received, 1, stale).offset == |received| - 2
    ensures RtuAccepts(received, addr, stale) <==> AddressMatches(received, addr) && Accepted(received)
  {
    hide *;
    var n := |received| - 2;
    AcceptsIs(received, addr, stale);
    AcceptedIs(received);
    WordHalves(received[n], received[n + 1]);
    WordStored(Checksum(received[..n]));
  }

  lemma AcceptedIs(received: seq<bv8>)
    requires |received| >= 2
    ensures var n := |received| - 2; var c := Checksum(received[..n]);
      && (Accepted(received) <==> received[n] == Low(c) && received[n + 1] == High(c))
      && ReadChecksum(received, n) == WordOf(received[n], received[n + 1])
  {
    hide Checksum, Low, High, WordOf;
    var n := |received| - 2;
    assert received == received[..n] + [received[n], received[n + 1]];
  }
}
