/**
 The protocol data unit of `mb_common.c`: the bytes `mb_data_encap` means to write, what a short
 buffer keeps of them, and what `mb_data_decap` makes of any bytes. The layouts are those of
 sections 6.1 to 6.12 of the MODBUS Application Protocol Specification V1.1b3, as far as the code
 follows them. The host is little-endian.
 */
module Pdu {
  import opened Coils

  // MAX_MBVALUE_SIZE
  const MAX_VALUE: nat := 2000

  // MB_INFO_T
  datatype Info = Info(code: bv8, err: bv8, reg: bv16, nReg: bv16, nByte: bv8, value: seq<bv8>)

  predicate Sized(info: Info) {
    |info.value| == MAX_VALUE
  }

  datatype Kind = ReadBits | ReadWords | WriteOne | WriteCoils | WriteWords | Unknown

  // The cases of the two switches.
  function KindOf(code: bv8): Kind {
    if code == 0x01 || code == 0x02 then ReadBits
    else if code == 0x03 || code == 0x04 then ReadWords
    else if code == 0x05 || code == 0x06 then WriteOne
    else if code == 0x0F then WriteCoils
    else if code == 0x10 then WriteWords
    else Unknown
  }

  predicate IsError(code: bv8) {
    0x80 < code
  }

  // ---------------------------------------------------------------------------------------------
  // Words in the host's memory and on the wire

  // l2b_endian and b2l_endian
  function Swap(w: bv16): bv16 {
    WordOf(High(w), Low(w))
  }

  // The two bytes of a word in memory.
  function Stored(w: bv16): seq<bv8> {
    [Low(w), High(w)]
  }

  // The two bytes of a word in the protocol's order.
  function OnWire(w: bv16): seq<bv8> {
    [High(w), Low(w)]
  }

  // is_big_endian asks whether the first byte of 0x00ff is 0xff, so it says 1 on this host.
  function IsBigEndian(): bool {
    Stored(0x00FF)[0] == 0xFF
  }

  lemma SwapNeeded()
    ensures IsBigEndian()
  {
  }

  lemma StoredWord(lo: bv8, hi: bv8)
    ensures Stored(WordOf(lo, hi)) == [lo, hi]
  {
  }

  lemma WordStored(w: bv16)
    ensures WordOf(Low(w), High(w)) == w
  {
  }

  // Swapping before a word is stored puts it in the protocol's order, and swapping after one is
  // loaded takes it back.
  lemma SwapStored(w: bv16)
    ensures Stored(Swap(w)) == OnWire(w)
    ensures Swap(WordOf(OnWire(w)[0], OnWire(w)[1])) == w
  {
    StoredWord(High(w), Low(w));
    WordStored(w);
  }

  // The low byte of a count, which is all an UINT8_T keeps of it.
  function CountOf(n: nat): bv8 {
    (n % 256) as bv8
  }

  // A byte as a count.
  function Size(b: bv8): (n: nat)
    ensures n < 256
  {
    b as nat
  }

  lemma CountIs(n: nat)
    ensures Size(CountOf(n)) == n % 256
  {
    ByteBack(n % 256);
  }

  lemma CountKept(n: nat)
    requires n < 256
    ensures Size(CountOf(n)) == n
  {
    ByteBack(n);
  }

  lemma ByteBack(m: nat)
    requires m < 256
    ensures m as bv8 as int == m
  {
    assert m / 4 == m / 2 / 2 && m / 8 == m / 4 / 2 && m / 16 == m / 8 / 2 && m / 32 == m / 16 / 2;
    assert m / 64 == m / 32 / 2 && m / 128 == m / 64 / 2 && m / 256 == 0;
  }

  // A word as a count.
  function Count(w: bv16): (n: nat)
    ensures n < 0x10000
  {
    w as nat
  }

  function CoilBytes(nReg: bv16): nat {
    Aligned8(Count(nReg)) % 256
  }

  function RegisterBytes(nReg: bv16): nat {
    (Count(nReg) * 2) % 256
  }

  // ---------------------------------------------------------------------------------------------
  // Encoding

  // A 0x0F request for 2001 to 2040 coils (or the same again after its count wraps) would read past
  // the values.
  predicate Readable(info: Info) {
    Sized(info) && (KindOf(info.code) == WriteCoils ==> 8 * CoilBytes(info.nReg) <= MAX_VALUE)
  }

  // Exactly which coil counts can be read: for 2001 to 2040 coils, and again every 2048, the byte count
  // asks for more values than there are.
  lemma CoilsReadable(info: Info)
    requires Sized(info)
    ensures Readable(info) <==> info.code == 0x0F ==> var n := info.nReg as nat;
      n == 0 || (n - 1) % 2048 < 2000 || (n - 1) % 2048 >= 2040
    ensures info.code == 0x0F && info.nReg as nat == 2001 ==> !Readable(info)
  {
    CoilBytesFit(Count(info.nReg));
    hide Aligned8;
  }

  lemma CoilBytesFit(n: nat)
    ensures 8 * (Aligned8(n) % 256) <= 2000 <==> n == 0 || (n - 1) % 2048 < 2000 || (n - 1) % 2048 >= 2040
  {
    if n > 0 {
      var q, s, u := (n - 1) / 2048, (n - 1) % 2048 / 8, (n - 1) % 8;
      EightsOf(n - 1);
      hide *;
      AlignedEights(n, 256 * q + s, u);
      Modulo256(q, s + 1);
    }
  }

  lemma EightsOf(m: nat)
    ensures m == 8 * (256 * (m / 2048) + m % 2048 / 8) + m % 8 && m % 2048 == 8 * (m % 2048 / 8) + m % 8
    ensures m % 2048 / 8 < 256
    ensures Aligned8(0) == 0
  {
  }

  lemma AlignedEights(n: nat, k: nat, u: nat)
    requires n == 8 * k + u + 1 && u < 8
    ensures Aligned8(n) == k + 1
  {
  }

  lemma Modulo256(q: nat, x: nat)
    requires x <= 256
    ensures (256 * q + x) % 256 == if x == 256 then 0 else x
  {
  }

  // The request as a whole. Functions 5, 6 and 0x10 send their values as they lie in memory.
  function Encoded(info: Info): seq<bv8>
    requires Readable(info)
  {
    [info.code] + OnWire(info.reg) +
    match KindOf(info.code)
    case ReadBits => OnWire(info.nReg)
    case ReadWords => OnWire(info.nReg)
    case WriteOne => info.value[..2]
    case WriteCoils =>
      var n := CoilBytes(info.nReg);
      OnWire(info.nReg) + [CountOf(n)] + Packed(info.value, n)
    case WriteWords =>
      var n := RegisterBytes(info.nReg);
      OnWire(info.nReg) + [CountOf(n)] + info.value[..n]
    case Unknown => []
  }

  // A 0x0F request (section 6.11): behind the count of bytes every coil has its bit.
  lemma CoilRequest(info: Info) returns (payload: seq<bv8>)
    requires Sized(info) && info.code == 0x0F && 1 <= info.nReg as nat <= 2000
    ensures Readable(info)
    ensures Encoded(info) == [0x0F] + OnWire(info.reg) + OnWire(info.nReg) + [CountOf(|payload|)] + payload
    ensures |payload| == (info.nReg as nat + 7) / 8 && Size(CountOf(|payload|)) == |payload|
    ensures CarriesCoils(payload, info.value, info.nReg as nat)
  {
    hide *;
    CoilsReadable(info);
    CountIsNat(info.nReg);
    payload := CoilPayload(info, info.nReg as nat);
  }

  lemma CoilPayload(info: Info, n: nat) returns (payload: seq<bv8>)
    requires Readable(info) && Sized(info) && info.code == 0x0F && Count(info.nReg) == n && 1 <= n <= 2000
    ensures Encoded(info) == [0x0F] + OnWire(info.reg) + OnWire(info.nReg) + [CountOf(|payload|)] + payload
    ensures |payload| == (n + 7) / 8 && Size(CountOf(|payload|)) == |payload|
    ensures CarriesCoils(payload, info.value, n)
  {
    hide *;
    SizedIs(info);
    AlignedIs(n);
    var k := Aligned8(n);
    PackedRequest(info.value, n);
    CoilEncoded(info, n);
    payload := Packed(info.value, k);
    CountKept(k);
  }

  lemma CountIsNat(w: bv16)
    ensures Count(w) == w as nat
  {
  }

  lemma AlignedIs(n: nat)
    ensures Aligned8(n) == (n + 7) / 8
    ensures 1 <= n <= 2000 ==> 8 * ((n + 7) / 8) <= 2000 && MAX_VALUE == 2000
  {
  }

  lemma CoilEncoded(info: Info, n: nat)
    requires Readable(info) && info.code == 0x0F && Count(info.nReg) == n && Aligned8(n) < 256
    ensures var k := Aligned8(n);
      && 8 * k <= |info.value|
      && Encoded(info) == [0x0F] + OnWire(info.reg) + OnWire(info.nReg) + [CountOf(k)] + Packed(info.value, k)
  {
    hide Aligned8, Packed, CountOf, High, Low;
  }

  // A 0x10 request (section 6.12): the count is that of the bytes that follow, which are those of all
  // the registers up to 127 registers and no more.
  lemma RegisterRequest(info: Info) returns (payload: seq<bv8>)
    requires Sized(info) && info.code == 0x10
    ensures Readable(info)
    ensures Encoded(info) == [0x10] + OnWire(info.reg) + OnWire(info.nReg) + [CountOf(|payload|)] + payload
    ensures Size(CountOf(|payload|)) == |payload| <= |info.value| && payload == info.value[..|payload|]
    ensures |payload| == 2 * (info.nReg as nat) <==> info.nReg as nat < 128
  {
    hide *;
    var n := (info.nReg as nat * 2) % 256;
    SizedIs(info);
    RegisterEncoded(info, n);
    ByteCount(info.nReg as nat);
    payload := info.value[..n];
    CountKept(n);
  }

  lemma ByteCount(n: nat)
    ensures (n * 2) % 256 == 2 * n <==> n < 128
    ensures 0 <= (n * 2) % 256 < 256
  {
  }

  lemma RegisterEncoded(info: Info, n: nat)
    requires Sized(info) && info.code == 0x10 && n == (info.nReg as nat * 2) % 256
    ensures Readable(info) && n <= |info.value|
    ensures Encoded(info) == [0x10] + OnWire(info.reg) + OnWire(info.nReg) + [CountOf(n)] + info.value[..n]
  {
    hide *;
    SizedIs(info);
    RegisterBytesIs(info.nReg);
    EncodedWords(info, n);
  }

  lemma RegisterBytesIs(w: bv16)
    ensures RegisterBytes(w) == (w as nat * 2) % 256 < 256
  {
  }

  lemma EncodedWords(info: Info, n: nat)
    requires Sized(info) && info.code == 0x10 && n == RegisterBytes(info.nReg) && n < 256
    ensures Readable(info)
    ensures Encoded(info) == [0x10] + OnWire(info.reg) + OnWire(info.nReg) + [CountOf(n)] + info.value[..n]
  {
    hide RegisterBytes, CountOf, OnWire;
  }

  lemma EncodedSize(info: Info)
    requires Readable(info)
    ensures |Encoded(info)| <= 261
  {
    hide Packed, CountOf, KindOf, High, Low;
  }

  function Singles(bytes: seq<bv8>): (r: seq<seq<bv8>>)
    ensures |r| == |bytes| && forall i :: 0 <= i < |r| ==> r[i] == [bytes[i]]
  {
    seq(|bytes|, i requires 0 <= i < |bytes| => [bytes[i]])
  }

  // The same request put by put: what each MBDATA_BYTE_SET or MBDATA_WORD_SET is given.
  function Puts(info: Info): seq<seq<bv8>>
    requires Readable(info)
  {
    [[info.code], OnWire(info.reg)] +
    match KindOf(info.code)
    case ReadBits => [OnWire(info.nReg)]
    case ReadWords => [OnWire(info.nReg)]
    case WriteOne => [info.value[..2]]
    case WriteCoils =>
      var n := CoilBytes(info.nReg);
      [OnWire(info.nReg), [CountOf(n)]] + Singles(Packed(info.value, n))
    case WriteWords =>
      var n := RegisterBytes(info.nReg);
      [OnWire(info.nReg), [CountOf(n)]] + Singles(info.value[..n])
    case Unknown => []
  }

  function Flatten(puts: seq<seq<bv8>>): seq<bv8> {
    if puts == [] then [] else Flatten(puts[..|puts| - 1]) + puts[|puts| - 1]
  }

  lemma FlattenOne(puts: seq<seq<bv8>>, p: seq<bv8>)
    ensures Flatten(puts + [p]) == Flatten(puts) + p
  {
    assert (puts + [p])[..|puts|] == puts;
  }

  lemma {:induction false} FlattenSingles(puts: seq<seq<bv8>>, bytes: seq<bv8>)
    ensures Flatten(puts + Singles(bytes)) == Flatten(puts) + bytes
  {
    if bytes == [] {
      assert puts + Singles(bytes) == puts;
    } else {
      var n := |bytes| - 1;
      FlattenSingles(puts, bytes[..n]);
      FlattenOne(puts + Singles(bytes[..n]), [bytes[n]]);
      SinglesLast(bytes);
      hide Singles, Flatten;
      assert puts + (Singles(bytes[..n]) + [[bytes[n]]]) == puts + Singles(bytes[..n]) + [[bytes[n]]];
      assert Flatten(puts) + bytes[..n] + [bytes[n]] == Flatten(puts) + (bytes[..n] + [bytes[n]]);
      assert bytes == bytes[..n] + [bytes[n]];
    }
  }

  lemma SinglesLast(bytes: seq<bv8>)
    requires bytes != []
    ensures var n := |bytes| - 1;
      Singles(bytes) == Singles(bytes[..n]) + [[bytes[n]]]
  {
  }

  lemma FlattenUpTo4(a: seq<bv8>, b: seq<bv8>, c: seq<bv8>, d: seq<bv8>)
    ensures Flatten([a, b]) == a + b
    ensures Flatten([a, b] + [c]) == a + b + c
    ensures Flatten([a, b] + [c, d]) == a + b + c + d
  {
    FlattenOne([], a);
    FlattenOne([a], b);
    FlattenOne([a, b], c);
    FlattenOne([a, b, c], d);
    assert [] + [a] == [a] && [a] + [b] == [a, b] && [a, b] + [c] == [a, b, c] && [a, b] + [c, d] == [a, b, c] + [d];
  }

  // The puts make up the request.
  lemma PutsAreEncoded(info: Info)
    requires Readable(info)
    ensures Flatten(Puts(info)) == Encoded(info)
  {
    hide OnWire, Flatten, CountOf, Singles, Packed;
    var a, b := [info.code], OnWire(info.reg);
    match KindOf(info.code)
    case ReadBits => FlattenUpTo4(a, b, OnWire(info.nReg), []);
    case ReadWords => FlattenUpTo4(a, b, OnWire(info.nReg), []);
    case WriteOne => FlattenUpTo4(a, b, info.value[..2], []);
    case WriteCoils =>
      var n := CoilBytes(info.nReg);
      PutsAreLong(a, b, OnWire(info.nReg), [CountOf(n)], Packed(info.value, n));
    case WriteWords =>
      var n := RegisterBytes(info.nReg);
      PutsAreLong(a, b, OnWire(info.nReg), [CountOf(n)], info.value[..n]);
    case Unknown =>
      FlattenUpTo4(a, b, [], []);
      assert Puts(info) == [a, b];
  }

  lemma PutsAreLong(a: seq<bv8>, b: seq<bv8>, c: seq<bv8>, d: seq<bv8>, bytes: seq<bv8>)
    ensures Flatten([a, b] + ([c, d] + Singles(bytes))) == a + b + (c + d + bytes)
  {
    hide Flatten, Singles;
    FlattenUpTo4(a, b, c, d);
    FlattenSingles([a, b] + [c, d], bytes);
    assert [a, b] + ([c, d] + Singles(bytes)) == [a, b] + [c, d] + Singles(bytes);
  }

  // ---------------------------------------------------------------------------------------------
  // A buffer with room for only so much

  // One put: all of it or nothing.
  function Store(s: seq<bv8>, room: nat, p: seq<bv8>): seq<bv8> {
    if |s| + |p| <= room then s + p else s
  }

  function StoreAll(s: seq<bv8>, room: nat, puts: seq<seq<bv8>>): seq<bv8> {
    if puts == [] then s else Store(StoreAll(s, room, puts[..|puts| - 1]), room, puts[|puts| - 1])
  }

  lemma StoreOne(s: seq<bv8>, room: nat, puts: seq<seq<bv8>>, p: seq<bv8>)
    ensures StoreAll(s, room, puts + [p]) == Store(StoreAll(s, room, puts), room, p)
  {
    assert (puts + [p])[..|puts|] == puts;
  }

  // The lengths tell whether a put was dropped, even though a byte may follow a word that was.
  lemma {:induction false} StoredWhole(s: seq<bv8>, room: nat, puts: seq<seq<bv8>>)
    requires |s| <= room
    ensures s <= StoreAll(s, room, puts) && |StoreAll(s, room, puts)| <= room
    ensures |StoreAll(s, room, puts)| == |s| + |Flatten(puts)| <==> |s| + |Flatten(puts)| <= room
    ensures |StoreAll(s, room, puts)| <= |s| + |Flatten(puts)|
    ensures |s| + |Flatten(puts)| <= room ==> StoreAll(s, room, puts) == s + Flatten(puts)
  {
    if puts != [] {
      StoredWhole(s, room, puts[..|puts| - 1]);
    }
  }

  // ---------------------------------------------------------------------------------------------
  // Decoding

  function ByteAt(bytes: seq<bv8>, at: nat, stale: bv8): bv8 {
    if at + 1 <= |bytes| then bytes[at] else stale
  }

  function WordAt(bytes: seq<bv8>, at: nat, stale: bv16): bv16 {
    if at + 2 <= |bytes| then WordOf(bytes[at], bytes[at + 1]) else stale
  }

  // The read offset after a get.
  function Past(bytes: seq<bv8>, at: nat, width: nat): nat {
    if at + width <= |bytes| then at + width else at
  }

  // How many of the n bytes from `at` a loop of gets takes, bytewise or wordwise.
  function Taken(bytes: seq<bv8>, at: nat, n: nat, words: bool): (t: nat)
    ensures t <= n && (t > 0 ==> at + t <= |bytes|)
  {
    if |bytes| <= at then 0
    else
      var rest := |bytes| - at;
      var usable := if words then rest - rest % 2 else rest;
      if n <= usable then n else usable
  }

  function Overwritten(value: seq<bv8>, bytes: seq<bv8>, at: nat, t: nat): (r: seq<bv8>)
    requires t <= |value| && (t > 0 ==> at + t <= |bytes|)
    ensures |r| == |value|
  {
    if t == 0 then value else bytes[at..at + t] + value[t..]
  }

  lemma OverwrittenAt(value: seq<bv8>, bytes: seq<bv8>, at: nat, t: nat)
    requires t <= |value| && (t > 0 ==> at + t <= |bytes|)
    ensures var r := Overwritten(value, bytes, at, t);
      |r| == |value| && forall k :: 0 <= k < |r| ==> r[k] == if k < t then bytes[at + k] else value[k]
  {
  }

  // What decoding leaves: the fields, the read offset, and how many bytes it asked for.
  datatype Decoding = Decoding(info: Info, offset: nat, wanted: nat)

  predicate Paired(i: nat) {
    i % 2 == 0
  }

  function RoundedUp(n: nat): (m: nat)
    ensures Paired(m) && n <= m <= n + 1
  {
    n + n % 2
  }

  function PayloadSize(n: bv8, words: bool): (size: nat)
    ensures size <= 256 && (words ==> Paired(size))
  {
    if words then RoundedUp(Size(n)) else Size(n)
  }

  function Payload(bytes: seq<bv8>, at: nat, info: Info, words: bool): Decoding
    requires Sized(info)
  {
    var n := ByteAt(bytes, at, info.nByte);
    var q := Past(bytes, at, 1);
    var size := PayloadSize(n, words);
    var t := Taken(bytes, q, size, words);
    Decoding(info.(nByte := n, value := Overwritten(info.value, bytes, q, t)), q + t, 2 + size)
  }

  // A field that is missing keeps its stale content, and a stale address or count is swapped too.
  function Decoded(bytes: seq<bv8>, at: nat, stale: Info): Decoding
    requires Sized(stale)
  {
    var info := stale.(code := ByteAt(bytes, at, stale.code));
    var p := Past(bytes, at, 1);
    if IsError(info.code) then
      Decoding(info.(err := ByteAt(bytes, p, info.err)), Past(bytes, p, 1), 2)
    else
      match KindOf(info.code)
      case ReadBits => Payload(bytes, p, info, false)
      case ReadWords => Payload(bytes, p, info, true)
      case WriteOne => One(bytes, p, info)
      case WriteCoils => Counted(bytes, p, info)
      case WriteWords => Counted(bytes, p, info)
      case Unknown => Decoding(info, p, 1)
  }

  function One(bytes: seq<bv8>, at: nat, info: Info): Decoding
    requires Sized(info)
  {
    var q := Past(bytes, at, 2);
    var r := Past(bytes, q, 1);
    var first, second := ByteAt(bytes, q, info.value[0]), ByteAt(bytes, r, info.value[1]);
    Decoding(info.(reg := Swap(WordAt(bytes, at, info.reg)), value := info.value[0 := first][1 := second]),
             Past(bytes, r, 1), 5)
  }

  function Counted(bytes: seq<bv8>, at: nat, info: Info): Decoding {
    var q := Past(bytes, at, 2);
    Decoding(info.(reg := Swap(WordAt(bytes, at, info.reg)), nReg := Swap(WordAt(bytes, q, info.nReg))),
             Past(bytes, q, 2), 5)
  }

  // The branches of the decoder, one by one.
  lemma DecodedCases(bytes: seq<bv8>, at: nat, stale: Info)
    requires Sized(stale)
    ensures var code := ByteAt(bytes, at, stale.code);
      var info := stale.(code := code);
      var p := Past(bytes, at, 1);
      var d := Decoded(bytes, at, stale);
      && d.wanted > 0
      && if IsError(code) then d == Decoding(info.(err := ByteAt(bytes, p, info.err)), Past(bytes, p, 1), 2)
         else match KindOf(code)
           case ReadBits => d == Payload(bytes, p, info, false)
           case ReadWords => d == Payload(bytes, p, info, true)
           case WriteOne => d == One(bytes, p, info)
           case WriteCoils => d == Counted(bytes, p, info)
           case WriteWords => d == Counted(bytes, p, info)
           case Unknown => d == Decoding(info, p, 1)
  {
    hide ByteAt, Past, IsError, KindOf;
  }

  // For any bytes, any offset and any stale fields: reading stays inside the bytes, and the offset
  // advances by what was asked for exactly when no field was missing.
  lemma DecodeAdvances(bytes: seq<bv8>, at: nat, stale: Info)
    requires Sized(stale)
    ensures var d := Decoded(bytes, at, stale);
      && Sized(d.info)
      && at <= d.offset <= at + d.wanted
      && (d.offset == at || d.offset <= |bytes|)
      && (d.offset == at + d.wanted <==> at + d.wanted <= |bytes|)
  {
    DecodedCases(bytes, at, stale);
    hide KindOf, IsError, Payload, Counted, One, Decoded;
    var p := Past(bytes, at, 1);
    var info := stale.(code := ByteAt(bytes, at, stale.code));
    PayloadAdvances(bytes, p, info, false);
    PayloadAdvances(bytes, p, info, true);
    CountedAdvances(bytes, p, info);
    OneAdvances(bytes, p, info);
  }

  lemma OneAdvances(bytes: seq<bv8>, at: nat, info: Info)
    requires Sized(info)
    ensures var d := One(bytes, at, info);
      && Sized(d.info)
      && at <= d.offset < at + d.wanted
      && (d.offset == at || d.offset <= |bytes|)
      && (d.offset + 1 == at + d.wanted <==> at + d.wanted <= |bytes| + 1)
  {
    hide Swap, WordOf;
  }

  lemma PayloadAdvances(bytes: seq<bv8>, at: nat, info: Info, words: bool)
    requires Sized(info)
    ensures var d := Payload(bytes, at, info, words);
      && Sized(d.info)
      && at <= d.offset < at + d.wanted
      && (d.offset == at || d.offset <= |bytes|)
      && (d.offset + 1 == at + d.wanted <==> at + d.wanted <= |bytes| + 1)
  {
    hide PayloadSize;
  }

  lemma CountedAdvances(bytes: seq<bv8>, at: nat, info: Info)
    requires Sized(info)
    ensures var d := Counted(bytes, at, info);
      && Sized(d.info)
      && at <= d.offset < at + d.wanted
      && (d.offset == at || d.offset <= |bytes|)
      && (d.offset + 1 == at + d.wanted <==> at + d.wanted <= |bytes| + 1)
  {
    hide Swap, WordOf;
  }

  // ---------------------------------------------------------------------------------------------
  // Replies

  datatype Reply =
    | BitsReply(code: bv8, data: seq<bv8>)
    | WordsReply(code: bv8, data: seq<bv8>)
    | OneReply(code: bv8, reg: bv16, first: bv8, second: bv8)
    | ManyReply(code: bv8, reg: bv16, nReg: bv16)
    | ErrorReply(code: bv8, err: bv8)

  predicate WellFormed(r: Reply) {
    match r
    case BitsReply(code, data) => KindOf(code) == ReadBits && |data| < 256
    case WordsReply(code, data) => KindOf(code) == ReadWords && |data| < 256
    case OneReply(code, _, _, _) => KindOf(code) == WriteOne
    case ManyReply(code, _, _) => KindOf(code) == WriteCoils || KindOf(code) == WriteWords
    case ErrorReply(code, _) => IsError(code)
  }

  function ReplyBytes(r: Reply): seq<bv8> {
    match r
    case BitsReply(code, data) => [code, CountOf(|data|)] + data
    case WordsReply(code, data) => [code, CountOf(|data|)] + data
    case OneReply(code, reg, first, second) => [code] + OnWire(reg) + [first, second]
    case ManyReply(code, reg, nReg) => [code] + OnWire(reg) + OnWire(nReg)
    case ErrorReply(code, err) => [code, err]
  }

  // The decoded fields are those of the reply.
  predicate Yields(info: Info, r: Reply)
    requires Sized(info)
  {
    info.code == r.code &&
    match r
    case BitsReply(_, data) => |data| < 256 && Size(info.nByte) == |data| && info.value[..|data|] == data
    case WordsReply(_, data) => |data| < 256 && Size(info.nByte) == |data| && info.value[..|data|] == data
    case OneReply(_, reg, first, second) => info.reg == reg && info.value[0] == first && info.value[1] == second
    case ManyReply(_, reg, nReg) => info.reg == reg && info.nReg == nReg
    case ErrorReply(_, err) => info.err == err
  }

  predicate Carries(bytes: seq<bv8>, at: nat, r: Reply) {
    at + |ReplyBytes(r)| <= |bytes| && bytes[at..at + |ReplyBytes(r)|] == ReplyBytes(r)
  }

  lemma CarriesIs(bytes: seq<bv8>, at: nat, r: Reply)
    ensures Carries(bytes, at, r) <==>
      at + |ReplyBytes(r)| <= |bytes| && bytes[at..at + |ReplyBytes(r)|] == ReplyBytes(r)
  {
  }

  // The register loop reads in pairs, so it needs an even number of bytes to stop at the reply's end.
  predicate Even(r: Reply) {
    r.WordsReply? ==> Paired(|r.data|)
  }

  lemma NoErrorKind(code: bv8)
    requires KindOf(code) != Unknown
    ensures !IsError(code)
  {
  }

  // An even reply anywhere in a frame is read back whole, and decoding stops just behind it.
  lemma DecodesEven(bytes: seq<bv8>, at: nat, r: Reply, stale: Info)
    requires Sized(stale) && WellFormed(r) && Even(r) && Carries(bytes, at, r)
    ensures var d := Decoded(bytes, at, stale);
      && Sized(d.info) && Yields(d.info, r)
      && d.offset == at + |ReplyBytes(r)| && d.wanted == |ReplyBytes(r)|
  {
    match r
    case BitsReply(code, data) => PayloadDecoded(bytes, at, r, stale);
    case WordsReply(code, data) => PayloadDecoded(bytes, at, r, stale);
    case OneReply(code, reg, first, second) =>
      NoErrorKind(code);
      OneRead(bytes, at, r, stale);
    case ManyReply(code, reg, nReg) =>
      NoErrorKind(code);
      ManyRead(bytes, at, r, stale);
    case ErrorReply(code, err) =>
      ErrorRead(bytes, at, r, stale);
  }

  lemma PayloadDecoded(bytes: seq<bv8>, at: nat, r: Reply, stale: Info)
    requires r.BitsReply? || r.WordsReply?
    requires Sized(stale) && WellFormed(r) && Even(r) && Carries(bytes, at, r)
    ensures var d := Decoded(bytes, at, stale);
      Sized(d.info) && Yields(d.info, r) && d.offset == at + |ReplyBytes(r)| && d.wanted == |ReplyBytes(r)|
  {
    hide *;
    SizedIs(stale);
    EvenReply(bytes, at, r);
    var info := stale.(code := r.code);
    SizedIs(info);
    DecodedPayload(bytes, at, stale, r.code);
    PayloadRead(bytes, at + 1, info, r.WordsReply?);
    var d := Decoded(bytes, at, stale);
    SizedIs(d.info);
    YieldsPayload(d.info, r);
    assert (r.data + stale.value[|r.data|..])[..|r.data|] == r.data;
  }

  lemma EvenReply(bytes: seq<bv8>, at: nat, r: Reply)
    requires (r.BitsReply? || r.WordsReply?) && WellFormed(r) && Even(r) && Carries(bytes, at, r)
    ensures |r.data| < 256 && |ReplyBytes(r)| == |r.data| + 2
    ensures at + 2 + |r.data| <= |bytes| && bytes[at] == r.code && bytes[at + 2..at + 2 + |r.data|] == r.data
    ensures Size(bytes[at + 1]) == |r.data| == PayloadSize(bytes[at + 1], r.WordsReply?)
    ensures KindOf(r.code) == (if r.WordsReply? then ReadWords else ReadBits) && ReadWords != ReadBits
  {
    CountRead(bytes, at, r.code, r.data);
    hide CountOf, Size;
  }

  lemma YieldsPayload(info: Info, r: Reply)
    requires Sized(info) && (r.BitsReply? || r.WordsReply?) && |r.data| < 256
    ensures |r.data| <= |info.value|
    ensures Yields(info, r) <==>
      info.code == r.code && Size(info.nByte) == |r.data| && info.value[..|r.data|] == r.data
  {
  }

  lemma DecodedPayload(bytes: seq<bv8>, at: nat, stale: Info, code: bv8)
    requires Sized(stale) && at < |bytes| && bytes[at] == code
    requires KindOf(code) == ReadBits || KindOf(code) == ReadWords
    ensures Decoded(bytes, at, stale) == Payload(bytes, at + 1, stale.(code := code), KindOf(code) == ReadWords)
  {
    NoErrorKind(code);
    hide KindOf, IsError, Payload;
  }

  // A payload that is there in full is taken in full.
  lemma PayloadRead(bytes: seq<bv8>, at: nat, info: Info, words: bool)
    requires Sized(info) && at < |bytes|
    requires at + 1 + PayloadSize(bytes[at], words) <= |bytes|
    ensures var size := PayloadSize(bytes[at], words);
      Payload(bytes, at, info, words) ==
      Decoding(info.(nByte := bytes[at], value := bytes[at + 1..at + 1 + size] + info.value[size..]),
               at + 1 + size, 2 + size)
  {
    hide PayloadSize;
    var size := PayloadSize(bytes[at], words);
    TakenAll(bytes, at + 1, size, words);
    hide Taken;
    assert size == 0 ==> bytes[at + 1..at + 1 + size] + info.value[size..] == info.value;
  }

  lemma TakenAll(bytes: seq<bv8>, at: nat, n: nat, words: bool)
    requires at + n <= |bytes| && (words ==> Paired(n))
    ensures Taken(bytes, at, n, words) == n
  {
  }

  lemma CountRead(bytes: seq<bv8>, at: nat, code: bv8, data: seq<bv8>)
    requires |data| < 256
    requires at + 2 + |data| <= |bytes| && bytes[at..at + 2 + |data|] == [code, CountOf(|data|)] + data
    ensures bytes[at] == code && Size(bytes[at + 1]) == |data| && bytes[at + 2..at + 2 + |data|] == data
  {
    hide *;
    var count := CountOf(|data|);
    CountKept(|data|);
    SliceOfThree(bytes, at, code, count, data);
  }

  lemma SliceOfThree(bytes: seq<bv8>, at: nat, x: bv8, y: bv8, data: seq<bv8>)
    requires at + 2 + |data| <= |bytes| && bytes[at..at + 2 + |data|] == [x, y] + data
    ensures bytes[at] == x && bytes[at + 1] == y && bytes[at + 2..at + 2 + |data|] == data
  {
    var whole := [x, y] + data;
    SliceAt(bytes, at, whole, 0);
    SliceAt(bytes, at, whole, 1);
    SliceFrom(bytes, at, whole, 2);
  }

  lemma SliceAt(bytes: seq<bv8>, at: nat, x: seq<bv8>, k: nat)
    requires at + |x| <= |bytes| && bytes[at..at + |x|] == x && k < |x|
    ensures bytes[at + k] == x[k]
  {
  }

  lemma SliceFrom(bytes: seq<bv8>, at: nat, x: seq<bv8>, k: nat)
    requires at + |x| <= |bytes| && bytes[at..at + |x|] == x && k <= |x|
    ensures bytes[at + k..at + |x|] == x[k..]
  {
  }

  lemma OneRead(bytes: seq<bv8>, at: nat, r: Reply, stale: Info)
    requires r.OneReply? && Sized(stale) && WellFormed(r) && !IsError(r.code) && Carries(bytes, at, r)
    ensures var d := Decoded(bytes, at, stale);
      Sized(d.info) && Yields(d.info, r) && d.offset == at + 5 && d.wanted == 5
  {
    hide Swap, WordOf, KindOf, IsError, High, Low;
    var whole := bytes[at..at + 5];
    assert bytes[at] == whole[0] && bytes[at + 1] == whole[1] && bytes[at + 2] == whole[2];
    assert bytes[at + 3] == whole[3] && bytes[at + 4] == whole[4];
    SwapStored(r.reg);
  }

  lemma ManyRead(bytes: seq<bv8>, at: nat, r: Reply, stale: Info)
    requires r.ManyReply? && Sized(stale) && WellFormed(r) && !IsError(r.code) && Carries(bytes, at, r)
    ensures var d := Decoded(bytes, at, stale);
      Sized(d.info) && Yields(d.info, r) && d.offset == at + 5 && d.wanted == 5
  {
    hide Swap, WordOf, KindOf, IsError, High, Low;
    var whole := bytes[at..at + 5];
    assert bytes[at] == whole[0] && bytes[at + 1] == whole[1] && bytes[at + 2] == whole[2];
    assert bytes[at + 3] == whole[3] && bytes[at + 4] == whole[4];
    SwapStored(r.reg);
    SwapStored(r.nReg);
  }

  lemma ErrorRead(bytes: seq<bv8>, at: nat, r: Reply, stale: Info)
    requires r.ErrorReply? && Sized(stale) && WellFormed(r) && Carries(bytes, at, r)
    ensures var d := Decoded(bytes, at, stale);
      Sized(d.info) && Yields(d.info, r) && d.offset == at + 2 && d.wanted == 2
  {
    hide Swap, WordOf, KindOf, IsError;
    var whole := bytes[at..at + 2];
    assert bytes[at] == whole[0] && bytes[at + 1] == whole[1];
  }

  lemma OddReply(bytes: seq<bv8>, at: nat, r: Reply)
    requires WellFormed(r) && !Even(r) && Carries(bytes, at, r)
    ensures r.WordsReply? && 0 < |r.data| < 256 && |ReplyBytes(r)| == |r.data| + 2
    ensures at + 2 + |r.data| <= |bytes| && bytes[at] == r.code && bytes[at + 2..at + 2 + |r.data|] == r.data
    ensures KindOf(r.code) == ReadWords && Size(bytes[at + 1]) == |r.data|
    ensures PayloadSize(bytes[at + 1], true) == |r.data| + 1
  {
    CountRead(bytes, at, r.code, r.data);
    hide CountOf, Size;
  }

  lemma SizedIs(info: Info)
    ensures Sized(info) <==> |info.value| == MAX_VALUE
    ensures MAX_VALUE > 256
  {
  }

  // With an odd number of register bytes the loop takes one byte too many, if there is one.
  lemma OddWordsOverrun(bytes: seq<bv8>, at: nat, r: Reply, stale: Info)
    requires Sized(stale) && WellFormed(r) && !Even(r) && Carries(bytes, at, r)
    requires at + |ReplyBytes(r)| + 1 <= |bytes|
    ensures var d := Decoded(bytes, at, stale);
      && Sized(d.info) && Yields(d.info, r)
      && d.offset == at + |ReplyBytes(r)| + 1 && d.wanted == |ReplyBytes(r)| + 1
  {
    hide *;
    SizedIs(stale);
    OddReply(bytes, at, r);
    DecodedPayload(bytes, at, stale, r.code);
    var info := stale.(code := r.code);
    SizedIs(info);
    PayloadRead(bytes, at + 1, info, true);
    var n, d := |r.data|, Decoded(bytes, at, stale);
    SizedIs(d.info);
    YieldsPayload(d.info, r);
    assert d.info.value[..n] == bytes[at + 2..at + 2 + n];
  }

  // If there is none, the last register byte is not taken and keeps its stale content.
  lemma OddWordsCut(bytes: seq<bv8>, at: nat, r: Reply, stale: Info)
    requires Sized(stale) && WellFormed(r) && !Even(r) && Carries(bytes, at, r)
    requires at + |ReplyBytes(r)| == |bytes|
    ensures var d, k := Decoded(bytes, at, stale), |r.data| - 1;
      && Sized(d.info) && 0 <= k < |stale.value| == |d.info.value|
      && d.offset == |bytes| - 1 && d.wanted == |ReplyBytes(r)| + 1
      && d.info.value[..k] == r.data[..k] && d.info.value[k] == stale.value[k]
      && (Yields(d.info, r) <==> r.data[k] == stale.value[k])
  {
    hide *;
    SizedIs(stale);
    OddReply(bytes, at, r);
    DecodedPayload(bytes, at, stale, r.code);
    var info := stale.(code := r.code);
    SizedIs(info);
    PayloadCut(bytes, at + 1, info);
    var n, d := |r.data|, Decoded(bytes, at, stale);
    SizedIs(d.info);
    YieldsPayload(d.info, r);
    assert bytes[at + 2..at + 1 + n] == bytes[at + 2..at + 2 + n][..n - 1];
    CutValue(d.info.value, r.data, stale.value);
  }

  // All of a payload but its last byte over the old values.
  lemma CutValue(value: seq<bv8>, data: seq<bv8>, before: seq<bv8>)
    requires 0 < |data| <= |before| && value == data[..|data| - 1] + before[|data| - 1..]
    ensures var k := |data| - 1;
      && |value| == |before| && value[..k] == data[..k] && value[k] == before[k]
      && (value[..|data|] == data <==> data[k] == before[k])
  {
    var k := |data| - 1;
    assert value[..|data|] == data[..k] + [before[k]];
    assert data == data[..k] + [data[k]];
  }

  lemma PayloadIs(bytes: seq<bv8>, at: nat, info: Info, words: bool)
    requires Sized(info) && at < |bytes|
    ensures var size := PayloadSize(bytes[at], words); var t := Taken(bytes, at + 1, size, words);
      Payload(bytes, at, info, words) ==
      Decoding(info.(nByte := bytes[at], value := Overwritten(info.value, bytes, at + 1, t)), at + 1 + t, 2 + size)
  {
  }

  lemma PayloadCut(bytes: seq<bv8>, at: nat, info: Info)
    requires Sized(info) && at < |bytes|
    requires var size := PayloadSize(bytes[at], true); size > 0 && at + size == |bytes|
    ensures var size := PayloadSize(bytes[at], true);
      Payload(bytes, at, info, true) ==
      Decoding(info.(nByte := bytes[at], value := bytes[at + 1..at + size - 1] + info.value[size - 2..]),
               at + size - 1, 2 + size)
  {
    hide *;
    var size := PayloadSize(bytes[at], true);
    SizedIs(info);
    PayloadIs(bytes, at, info, true);
    TakenOdd(bytes, at + 1, size);
    OverwrittenIs(info.value, bytes, at + 1, size - 2);
  }

  lemma OverwrittenIs(value: seq<bv8>, bytes: seq<bv8>, at: nat, t: nat)
    requires t <= |value| && at + t <= |bytes|
    ensures Overwritten(value, bytes, at, t) == bytes[at..at + t] + value[t..]
  {
    assert t == 0 ==> bytes[at..at + t] + value[t..] == value;
  }

  lemma TakenOdd(bytes: seq<bv8>, at: nat, n: nat)
    requires Paired(n) && n > 0 && at + n == |bytes| + 1
    ensures Taken(bytes, at, n, true) == n - 2
  {
  }

  // Any reply anywhere in a frame: where decoding stops, and exactly when the fields are the reply's.
  lemma DecodesReply(bytes: seq<bv8>, at: nat, r: Reply, stale: Info)
    requires Sized(stale) && WellFormed(r) && Carries(bytes, at, r)
    ensures var d, n := Decoded(bytes, at, stale), |ReplyBytes(r)|;
      && Sized(d.info)
      && d.offset == at + n + (if Even(r) then 0 else if at + n < |bytes| then 1 else -1)
      && d.wanted == n + (if Even(r) then 0 else 1)
      && (Yields(d.info, r) <==>
          Even(r) || at + n < |bytes| || r.data[|r.data| - 1] == stale.value[|r.data| - 1])
  {
    hide Decoded, Yields, ReplyBytes;
    if Even(r) {
      DecodesEven(bytes, at, r, stale);
    } else if at + |ReplyBytes(r)| < |bytes| {
      OddWordsOverrun(bytes, at, r, stale);
    } else {
      OddWordsCut(bytes, at, r, stale);
    }
  }

  // A slave echoes a 5 or 6 request as a whole, and the first five bytes of a 0x0F or 0x10 request.
  lemma EchoIsReply(info: Info)
    requires Readable(info)
    ensures info.code == 0x05 || info.code == 0x06 ==>
      Encoded(info) == ReplyBytes(OneReply(info.code, info.reg, info.value[0], info.value[1]))
    ensures info.code == 0x0F || info.code == 0x10 ==>
      Encoded(info)[..5] == ReplyBytes(ManyReply(info.code, info.reg, info.nReg))
  {
    hide High, Low, CountOf, CoilBytes, RegisterBytes, Packed;
  }
}
