/**
 The protocol data units code by code, as the two switches of `mb_common.c` lay them out: what each
 request is, byte for byte, and what becomes of each reply.
 */
module Layouts {
  import opened Coils
  import opened Pdu

  function FromWire(high: bv8, low: bv8): bv16 {
    ((high as bv16) << 8) | (low as bv16)
  }

  // High byte first on the wire, low byte first in memory.
  lemma ByteOrder(w: bv16)
    ensures OnWire(w) == [(w >> 8) as bv8, (w & 0xFF) as bv8]
    ensures Stored(w) == [(w & 0xFF) as bv8, (w >> 8) as bv8]
    ensures FromWire(OnWire(w)[0], OnWire(w)[1]) == w
  {
  }

  lemma ReadRequest(info: Info)
    requires Sized(info) && (info.code == 0x01 || info.code == 0x02 || info.code == 0x03 || info.code == 0x04)
    ensures Readable(info) && Encoded(info) == [info.code] + OnWire(info.reg) + OnWire(info.nReg)
  {
    hide OnWire;
  }

  lemma OneRequest(info: Info)
    requires Sized(info) && (info.code == 0x05 || info.code == 0x06)
    ensures Readable(info) && Encoded(info) == [info.code] + OnWire(info.reg) + [info.value[0], info.value[1]]
  {
    hide OnWire;
  }

  // Up to 127 registers a 0x10 request has all their bytes, as they lie in memory.
  lemma RegistersRequest(info: Info)
    requires Sized(info) && info.code == 0x10 && info.nReg as nat < 128
    ensures var n := 2 * (info.nReg as nat);
      && Readable(info) && n < 256 && Size(CountOf(n)) == n
      && Encoded(info) == [0x10] + OnWire(info.reg) + OnWire(info.nReg) + [CountOf(n)] + info.value[..n]
  {
    var payload := RegisterRequest(info);
    hide *;
  }

  lemma OtherRequest(info: Info)
    requires Sized(info) && info.code !in {0x01, 0x02, 0x03, 0x04, 0x05, 0x06, 0x0F, 0x10}
    ensures Readable(info) && Encoded(info) == [info.code] + OnWire(info.reg)
  {
    hide OnWire;
  }

  // The two requests of io_rely_handle, for 16 coils from address 0.
  lemma RelyRequests(read: Info, write: Info)
    requires Sized(read) && read.code == 0x01 && read.reg == 0 && read.nReg == 16
    requires Sized(write) && write.code == 0x0F && write.reg == 0 && write.nReg == 16
    ensures Readable(read) && Encoded(read) == [0x01, 0, 0, 0, 16]
    ensures Readable(write) && Encoded(write) == [0x0F, 0, 0, 0, 16, 2] + Packed(write.value, 2)
  {
    ReadRequest(read);
    var payload := CoilRequest(write);
    CoilEncoded(write, 16);
    SixteenCoils();
    hide *;
  }

  lemma SixteenCoils()
    ensures OnWire(0) == [0, 0] && OnWire(16) == [0, 16] && CountOf(2) == 2 && Count(16) == 16 && Aligned8(16) == 2
  {
  }

  // ---------------------------------------------------------------------------------------------
  // Replies

  // Functions 1 and 2: a count and as many bytes. The other fields stay.
  lemma BitsDecoded(bytes: seq<bv8>, at: nat, stale: Info)
    requires Sized(stale) && at + 2 <= |bytes| && (bytes[at] == 0x01 || bytes[at] == 0x02)
    requires at + 2 + bytes[at + 1] as nat <= |bytes|
    ensures var n := bytes[at + 1] as nat;
      && n < 256
      && Decoded(bytes, at, stale) == Decoding(
           stale.(code := bytes[at], nByte := bytes[at + 1], value := bytes[at + 2..at + 2 + n] + stale.value[n..]),
           at + 2 + n, 2 + n)
  {
    hide *;
    PayloadCode(bytes[at]);
    PayloadBytes(bytes[at + 1]);
    SizedIs(stale);
    var info := stale.(code := bytes[at]);
    SizedIs(info);
    DecodedPayload(bytes, at, stale, bytes[at]);
    PayloadRead(bytes, at + 1, info, false);
  }

  // Functions 3 and 4, for an even count; see Pdu.DecodesReply for an odd one.
  lemma WordsDecoded(bytes: seq<bv8>, at: nat, stale: Info)
    requires Sized(stale) && at + 2 <= |bytes| && (bytes[at] == 0x03 || bytes[at] == 0x04)
    requires bytes[at + 1] as nat % 2 == 0 && at + 2 + bytes[at + 1] as nat <= |bytes|
    ensures var n := bytes[at + 1] as nat;
      && n < 256
      && Decoded(bytes, at, stale) == Decoding(
           stale.(code := bytes[at], nByte := bytes[at + 1], value := bytes[at + 2..at + 2 + n] + stale.value[n..]),
           at + 2 + n, 2 + n)
  {
    hide *;
    PayloadCode(bytes[at]);
    PayloadBytes(bytes[at + 1]);
    SizedIs(stale);
    var info := stale.(code := bytes[at]);
    SizedIs(info);
    DecodedPayload(bytes, at, stale, bytes[at]);
    PayloadRead(bytes, at + 1, info, true);
  }

  lemma PayloadCode(code: bv8)
    ensures code == 0x01 || code == 0x02 ==> KindOf(code) == ReadBits
    ensures code == 0x03 || code == 0x04 ==> KindOf(code) == ReadWords
    ensures ReadBits != ReadWords
  {
  }

  lemma PayloadBytes(n: bv8)
    ensures PayloadSize(n, false) == n as nat < 256
    ensures n as nat % 2 == 0 ==> PayloadSize(n, true) == n as nat
  {
  }

  // Functions 5 and 6: an address and two bytes.
  lemma OneDecoded(bytes: seq<bv8>, at: nat, stale: Info)
    requires Sized(stale) && at + 5 <= |bytes| && (bytes[at] == 0x05 || bytes[at] == 0x06)
    ensures var reg := FromWire(bytes[at + 1], bytes[at + 2]);
      Decoded(bytes, at, stale) == Decoding(
        stale.(code := bytes[at], reg := reg, value := stale.value[0 := bytes[at + 3]][1 := bytes[at + 4]]), at + 5, 5)
  {
    SwappedWord(bytes[at + 1], bytes[at + 2]);
    hide Swap, WordOf, FromWire;
  }

  // Functions 0x0F and 0x10: an address and a number.
  lemma NumberDecoded(bytes: seq<bv8>, at: nat, stale: Info)
    requires Sized(stale) && at + 5 <= |bytes| && (bytes[at] == 0x0F || bytes[at] == 0x10)
    ensures var reg := FromWire(bytes[at + 1], bytes[at + 2]);
      var nReg := FromWire(bytes[at + 3], bytes[at + 4]);
      Decoded(bytes, at, stale) == Decoding(stale.(code := bytes[at], reg := reg, nReg := nReg), at + 5, 5)
  {
    SwappedWord(bytes[at + 1], bytes[at + 2]);
    SwappedWord(bytes[at + 3], bytes[at + 4]);
    hide Swap, WordOf, FromWire;
  }

  lemma SwappedWord(first: bv8, second: bv8)
    ensures Swap(WordOf(first, second)) == FromWire(first, second)
  {
  }

  // Any code above 0x80 is an exception: the byte behind it is the error, if it is there.
  lemma ErrorDecoded(bytes: seq<bv8>, at: nat, stale: Info)
    requires Sized(stale) && at < |bytes| && bytes[at] > 0x80
    ensures Decoded(bytes, at, stale) ==
      if at + 2 <= |bytes| then Decoding(stale.(code := bytes[at], err := bytes[at + 1]), at + 2, 2)
      else Decoding(stale.(code := bytes[at]), at + 1, 2)
  {
  }

  // No other code touches the error.
  lemma ErrorKept(bytes: seq<bv8>, at: nat, stale: Info)
    requires Sized(stale) && at < |bytes| && bytes[at] <= 0x80
    ensures Decoded(bytes, at, stale).info.err == stale.err
  {
    DecodedCases(bytes, at, stale);
    hide Decoded, Overwritten, Taken, PayloadSize, Swap, WordOf;
  }

  // The exceptions to the eight functions.
  lemma ExceptionDecoded(code: bv8, err: bv8, rest: seq<bv8>, stale: Info)
    requires code in {0x01, 0x02, 0x03, 0x04, 0x05, 0x06, 0x0F, 0x10} && Sized(stale)
    ensures Decoded([code + 0x80, err] + rest, 0, stale) ==
      Decoding(stale.(code := code + 0x80, err := err), 2, 2)
  {
    ErrorDecoded([code + 0x80, err] + rest, 0, stale);
    hide Decoded;
  }

  // Any other code is read and nothing else.
  lemma OtherDecoded(bytes: seq<bv8>, at: nat, stale: Info)
    requires Sized(stale) && at < |bytes| && bytes[at] <= 0x80
    requires bytes[at] !in {0x01, 0x02, 0x03, 0x04, 0x05, 0x06, 0x0F, 0x10}
    ensures Decoded(bytes, at, stale) == Decoding(stale.(code := bytes[at]), at + 1, 1)
  {
  }

  // Which replies are well-formed, by code.
  lemma ReplyCodes(code: bv8, data: seq<bv8>, reg: bv16, nReg: bv16, first: bv8, second: bv8)
    ensures WellFormed(BitsReply(code, data)) <==> (code == 0x01 || code == 0x02) && |data| < 256
    ensures WellFormed(WordsReply(code, data)) <==> (code == 0x03 || code == 0x04) && |data| < 256
    ensures WellFormed(OneReply(code, reg, first, second)) <==> code == 0x05 || code == 0x06
    ensures WellFormed(ManyReply(code, reg, nReg)) <==> code == 0x0F || code == 0x10
    ensures WellFormed(ErrorReply(code, first)) <==> code > 0x80
  {
  }

  // The fields a reply yields tell which reply it was.
  lemma FieldsTell(info: Info, r: Reply, s: Reply)
    requires Sized(info) && WellFormed(r) && WellFormed(s) && Yields(info, r) && Yields(info, s)
    ensures r == s
  {
  }
}
