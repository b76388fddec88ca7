/**
 TCP frames, `mb_tcp.c`: the MBAP header and the protocol data unit (section 3.1.3 of the MODBUS
 Messaging on TCP/IP Implementation Guide V1.0b). The connection is a sequence of received bytes.
 */
module Tcp {
  import opened Coils
  import opened Pdu
  import opened MbCommon
  import Rtu

  // sizeof(MBAP_HEAD_T)
  const HEAD: nat := 7

  // MBAP_HEAD_T
  datatype Mbap = Mbap(transaction: bv16, protocol: bv16, length: bv16, unit: bv8)

  // The header as it lies in memory.
  function HeadBytes(h: Mbap): (s: seq<bv8>)
    ensures |s| == 7
  {
    Stored(h.transaction) + Stored(h.protocol) + Stored(h.length) + [h.unit]
  }

  function HeadOf(s: seq<bv8>): Mbap
    requires |s| >= 7
  {
    Mbap(WordOf(s[0], s[1]), WordOf(s[2], s[3]), WordOf(s[4], s[5]), s[6])
  }

  // UINT16_T counter
  function Next(transaction: bv16): bv16 {
    transaction + 1
  }

  lemma NextIs(transaction: bv16)
    ensures Next(transaction) == transaction + 1
  {
  }

  // A length as a UINT16_T, put together from its two bytes.
  function LengthWord(n: nat): bv16 {
    WordOf(CountOf(n), CountOf(n / 256))
  }

  function LengthField(frame: seq<bv8>): nat
    requires |frame| >= 7
  {
    256 * Size(frame[4]) + Size(frame[5])
  }

  lemma LengthIs(n: nat)
    requires n < 0x10000
    ensures 256 * Size(CountOf(n / 256)) + Size(CountOf(n)) == n
  {
    CountIs(n);
    CountKept(n / 256);
    hide Size, CountOf;
  }

  // The whole frame. The transaction and protocol codes stay in the host's order; the length is in the
  // protocol's.
  function TcpFrame(transaction: bv16, protocol: bv16, unit: bv8, pdu: seq<bv8>): seq<bv8> {
    var n := |pdu| + 1;
    Stored(transaction) + Stored(protocol) + [CountOf(n / 256), CountOf(n)] + [unit] + pdu
  }

  predicate Answers(rx: Mbap, tx: Mbap) {
    rx.transaction == tx.transaction && rx.protocol == tx.protocol && rx.unit == tx.unit
  }

  // The header that is looked at: the buffer was cleared before a reply came in.
  function ReceivedHead(received: seq<bv8>): Mbap {
    HeadOf(received + Zeros(7))
  }

  class MbTcp {
    const mb: MbData
    // mbap_head[MB_TX] and mbap_head[MB_RX]
    var tx: Mbap
    var rx: Mbap

    constructor (maxDataSize: nat, unitId: bv8)
      requires maxDataSize < 0x10000
      ensures mb.Valid() && fresh(mb) && fresh(mb.data) && mb.maxDataLen == maxDataSize
      ensures tx.transaction == 0 && tx.protocol == 0 && tx.unit == unitId
    {
      mb := new MbData(maxDataSize);
      tx, rx := Mbap(0, 0, 0, unitId), Mbap(0, 0, 0, 0);
    }

    // mbap_head_encap, into a cleared buffer
    method HeadEncap()
      requires mb.Valid() && mb.dataLen == 0 && HEAD <= mb.maxDataLen
      modifies this`tx, mb`dataLen, mb.data
      ensures tx == old(tx).(transaction := old(tx).transaction + 1)
      ensures mb.dataLen == HEAD <= mb.data.Length && mb.Bytes() == HeadBytes(tx)
      ensures mb.Valid()
    {
      mb.ValidFacts();
      NextIs(tx.transaction);
      hide Next, HeadBytes, Swap, IsBigEndian, Sized;
      tx := tx.(transaction := Next(tx.transaction));
      var head := tx;
      if !mb.isBigEndian {
        head := head.(transaction := Swap(head.transaction));
      }
      ghost var bytes := HeadBytes(head);
      forall i | 0 <= i < HEAD {
        mb.data[i] := HeadBytes(head)[i];
      }
      mb.dataLen := mb.dataLen + HEAD;
      assert mb.data[..HEAD] == bytes;
    }

    // mbap_head_re_encap: the length counts what follows it.
    method HeadReEncap()
      requires mb.Valid() && HEAD <= mb.dataLen
      modifies mb.data
      ensures var old0 := old(mb.Bytes()); var n := mb.dataLen - 6;
        mb.Bytes() == old0[..4] + [CountOf(n / 256), CountOf(n)] + old0[6..]
      ensures mb.Valid()
    {
      mb.ValidFacts();
      var length := LengthWord(mb.dataLen - 6);
      LengthStored(mb.dataLen - 6);
      hide LengthWord, Swap, Stored, CountOf, IsBigEndian, Sized;
      if mb.isBigEndian {
        length := Swap(length);
      }
      mb.data[4], mb.data[5] := Stored(length)[0], Stored(length)[1];
    }

    // mb_tcp_send up to the connection: the frame for the request if it fits, which the lengths tell.
    method Send() returns (sent: seq<bv8>)
      requires mb.Valid() && Readable(mb.info) && HEAD <= mb.maxDataLen
      modifies this`tx, mb`operateDataLen, mb`dataLen, mb`offset, mb.data
      ensures mb.dataLen <= mb.data.Length && sent == mb.Bytes() && |sent| >= 7
      ensures tx == old(tx).(transaction := old(tx).transaction + 1)
      ensures mb.operateDataLen == |Encoded(mb.info)|
      ensures mb.dataLen == HEAD + mb.operateDataLen <==> HEAD + |Encoded(mb.info)| <= mb.maxDataLen
      ensures mb.dataLen == HEAD + mb.operateDataLen ==>
        sent == TcpFrame(tx.transaction, tx.protocol, tx.unit, Encoded(mb.info))
      ensures LengthField(sent) == |sent| - 6
      ensures mb.Valid()
    {
      hide *;
      HeadIs();
      EncodedSize(mb.info);
      mb.ValidFacts();
      mb.Clear();
      mb.ValidFacts();
      HeadEncap();
      mb.ValidFacts();
      mb.Encap();
      mb.ValidFacts();
      ghost var s := mb.Bytes();
      HeadReEncap();
      mb.ValidFacts();
      sent := mb.data[..mb.dataLen];
      FrameStored(tx, Encoded(mb.info), s, sent);
    }

    // mbap_head_decap_check
    method HeadDecapCheck() returns (ret: int)
      requires mb.Valid() && HEAD <= mb.data.Length
      modifies this`rx, mb`offset
      ensures rx == HeadOf(mb.data[..])
      ensures ret == if Answers(rx, tx) then 0 else -1
      ensures mb.offset == HEAD
      ensures mb.Valid()
    {
      hide HeadOf, IsBigEndian, Sized;
      var rxHead := HeadOf(mb.data[..]);
      ret := 0;
      if rxHead.transaction != tx.transaction {
        ret := -1;
      } else if rxHead.protocol != tx.protocol {
        ret := -1;
      } else if rxHead.unit != tx.unit {
        ret := -1;
      }
      rx := rxHead;
      mb.offset := HEAD;
    }

    // mb_tcp_recv behind the connection
    method Recv(received: seq<bv8>) returns (ret: int)
      requires mb.Valid() && HEAD <= mb.maxDataLen && |received| <= mb.maxDataLen
      modifies this`rx, mb, mb.data
      ensures rx == ReceivedHead(received)
      ensures ret == if Answers(rx, tx) then |received| else -1
      ensures mb.info == if Answers(rx, tx) then Decoded(received, HEAD, old(mb.info)).info else old(mb.info)
      ensures mb.Valid()
    {
      hide *;
      HeadIs();
      mb.ValidFacts();
      var length := |received|;
      PaddedHead(received, mb.maxDataLen - |received|);
      mb.Receive(received);
      mb.ValidFacts();
      var check := HeadDecapCheck();
      if check < 0 {
        return -1;
      }
      mb.Decap();
      mb.FollowsFacts(Decoded(received, HEAD, old(mb.info)), 0, 0);
      return length;
    }
  }

  lemma HeadIs()
    ensures HEAD == 7
  {
  }

  lemma LengthStored(n: nat)
    ensures Stored(Swap(LengthWord(n))) == [CountOf(n / 256), CountOf(n)]
  {
    WordHalves(CountOf(n), CountOf(n / 256));
    SwapStored(LengthWord(n));
    hide WordOf, Low, High, CountOf;
  }

  lemma PaddedHead(received: seq<bv8>, n: nat)
    requires |received| + n >= 7
    ensures HeadOf(received + Zeros(n)) == ReceivedHead(received)
  {
    hide WordOf;
    var x, y := received + Zeros(n), received + Zeros(7);
    assert forall i :: 0 <= i < 7 ==> x[i] == y[i];
  }

  lemma FrameFields(tx: Mbap, pdu: seq<bv8>)
    ensures var h, n := HeadBytes(tx), |pdu| + 1;
      TcpFrame(tx.transaction, tx.protocol, tx.unit, pdu) ==
      h[..4] + [CountOf(n / 256), CountOf(n)] + ([h[6]] + pdu)
  {
    hide CountOf, Low, High;
  }

  // The header, what fitted of the request behind it, and the length put in.
  lemma FrameStored(tx: Mbap, pdu: seq<bv8>, s: seq<bv8>, sent: seq<bv8>)
    requires 7 <= |s| < 0x10000 && HeadBytes(tx) <= s
    requires |s| == 7 + |pdu| ==> s == HeadBytes(tx) + pdu
    requires var n := |s| - 6; sent == s[..4] + [CountOf(n / 256), CountOf(n)] + s[6..]
    ensures |sent| == |s| && LengthField(sent) == |sent| - 6
    ensures |s| == 7 + |pdu| ==> sent == TcpFrame(tx.transaction, tx.protocol, tx.unit, pdu)
  {
    hide *;
    LengthPut(s, sent);
    if |s| == 7 + |pdu| {
      FrameFields(tx, pdu);
      HeadSplit(HeadBytes(tx), pdu);
    }
  }

  lemma LengthPut(s: seq<bv8>, sent: seq<bv8>)
    requires 7 <= |s| < 0x10000
    requires var n := |s| - 6; sent == s[..4] + [CountOf(n / 256), CountOf(n)] + s[6..]
    ensures |sent| == |s| && LengthField(sent) == |sent| - 6
  {
    LengthIs(|s| - 6);
    hide Size, CountOf;
    assert sent[4] == CountOf((|s| - 6) / 256) && sent[5] == CountOf(|s| - 6);
  }

  lemma HeadSplit(h: seq<bv8>, pdu: seq<bv8>)
    requires |h| == 7
    ensures (h + pdu)[..4] == h[..4] && (h + pdu)[6..] == [h[6]] + pdu
  {
  }

  // ---------------------------------------------------------------------------------------------
  // What is accepted

  lemma FrameHead(transaction: bv16, protocol: bv16, unit: bv8, pdu: seq<bv8>, rest: seq<bv8>)
    ensures var f := TcpFrame(transaction, protocol, unit, pdu);
      && |f| == 7 + |pdu| && f[7..] == pdu
      && (f + rest)[7..7 + |pdu|] == pdu
      && var h := ReceivedHead(f + rest);
        h.transaction == transaction && h.protocol == protocol && h.unit == unit
  {
    WordStored(transaction);
    WordStored(protocol);
    hide Low, High, WordOf, CountOf;
    var f := TcpFrame(transaction, protocol, unit, pdu);
    assert f == f[..7] + pdu;
    assert (f + rest)[7..7 + |pdu|] == pdu;
  }

  // Whatever header arrives is the one looked at.
  lemma HeadRead(h: Mbap, rest: seq<bv8>)
    ensures ReceivedHead(HeadBytes(h) + rest) == h && (HeadBytes(h) + rest)[HEAD..] == rest
  {
    WordStored(h.transaction);
    WordStored(h.protocol);
    WordStored(h.length);
    hide Low, High, WordOf;
  }

  lemma AnswersIs(rx: Mbap, tx: Mbap)
    ensures Answers(rx, tx) <==>
      rx.transaction == tx.transaction && rx.protocol == tx.protocol && rx.unit == tx.unit
    ensures HEAD == 7
  {
  }

  // A reply is accepted exactly if it carries the codes of the request sent last, whatever its length
  // field says and whatever the fields held before. Then it yields its own fields, but for the last
  // byte of a register reply of odd length with nothing behind it, which is not taken.
  lemma ReplyAccepted(tx: Mbap, h: Mbap, r: Reply, rest: seq<bv8>, stale: Info)
    requires Sized(stale) && WellFormed(r)
    ensures var received, n := HeadBytes(h) + ReplyBytes(r) + rest, |ReplyBytes(r)|;
      && (Answers(ReceivedHead(received), tx) <==>
          h.transaction == tx.transaction && h.protocol == tx.protocol && h.unit == tx.unit)
      && var d := Decoded(received, HEAD, stale);
        && Sized(d.info)
        && d.offset == HEAD + n + (if Even(r) then 0 else if rest != [] then 1 else -1)
        && (Yields(d.info, r) <==>
            Even(r) || rest != [] || r.data[|r.data| - 1] == stale.value[|r.data| - 1])
  {
    hide *;
    var pdu := ReplyBytes(r);
    var received := HeadBytes(h) + pdu + rest;
    assert received == HeadBytes(h) + (pdu + rest);
    HeadRead(h, pdu + rest);
    AnswersIs(h, tx);
    CarriesIs(received, HEAD, r);
    assert received[HEAD..HEAD + |pdu|] == pdu;
    DecodesReply(received, HEAD, r, stale);
  }

  // A frame with the right length is one of them.
  lemma FrameIsHead(transaction: bv16, protocol: bv16, unit: bv8, pdu: seq<bv8>)
    ensures var h := Mbap(transaction, protocol, Swap(LengthWord(|pdu| + 1)), unit);
      TcpFrame(transaction, protocol, unit, pdu) == HeadBytes(h) + pdu
  {
    LengthStored(|pdu| + 1);
    hide Low, High, Swap, LengthWord, CountOf;
  }

  // A connection that delivers nothing still delivers a header of zeros; that is refused unless the
  // transaction counter has come round to zero with protocol and unit zero.
  lemma NothingReceived(tx: Mbap)
    ensures Answers(ReceivedHead([]), tx) <==> tx.transaction == 0 && tx.protocol == 0 && tx.unit == 0
  {
    assert [] + Zeros(7) == Zeros(7);
    ZeroWord();
    hide WordOf;
  }

  lemma ZeroWord()
    ensures WordOf(0, 0) == 0
  {
  }

  // Both kinds of frame carry the same protocol data unit, and the MBAP length is the number of bytes
  // behind it.
  lemma SamePdu(transaction: bv16, protocol: bv16, unit: bv8, addr: bv8, pdu: seq<bv8>)
    requires |pdu| < 0xFFFF
    ensures var t, r := TcpFrame(transaction, protocol, unit, pdu), Rtu.RtuFrame(addr, pdu);
      t[7..] == pdu == r[1..|r| - 2] && LengthField(t) == |t| - 6
  {
    hide *;
    FrameHead(transaction, protocol, unit, pdu, []);
    Rtu.FrameParts(addr, pdu);
    LengthIs(|pdu| + 1);
    FrameLength(transaction, protocol, unit, pdu);
  }

  lemma FrameLength(transaction: bv16, protocol: bv16, unit: bv8, pdu: seq<bv8>)
    ensures var t, n := TcpFrame(transaction, protocol, unit, pdu), |pdu| + 1;
      |t| == 7 + |pdu| && LengthField(t) == 256 * Size(CountOf(n / 256)) + Size(CountOf(n))
  {
    hide Low, High, CountOf, Size;
  }
}
