/**
 Coil packing: eight coils to a byte, the first coil in the least significant bit (section 6.1 and
 6.11 of the MODBUS Application Protocol Specification V1.1b3). A coil is on if its value byte is
 not zero; `mb_data_encap` packs and `io_rely_handle` unpacks.
 */
module Coils {

  // 1 << j
  function Weight(j: nat): bv8
    requires j < 8
  {
    match j
    case 0 => 1
    case 1 => 2
    case 2 => 4
    case 3 => 8
    case 4 => 16
    case 5 => 32
    case 6 => 64
    case _ => 128
  }

  predicate Has(b: bv8, weight: bv8) {
    b & weight != 0
  }

  predicate Bit(b: bv8, j: nat)
    requires j < 8
  {
    Has(b, Weight(j))
  }

  // Bit j is the one of weight 2 to the j.
  lemma BitIs(b: bv8)
    ensures (Bit(b, 0) <==> b & 1 != 0) && (Bit(b, 1) <==> b & 2 != 0) && (Bit(b, 2) <==> b & 4 != 0)
    ensures (Bit(b, 3) <==> b & 8 != 0) && (Bit(b, 4) <==> b & 16 != 0) && (Bit(b, 5) <==> b & 32 != 0)
    ensures (Bit(b, 6) <==> b & 64 != 0) && (Bit(b, 7) <==> b & 128 != 0)
  {
  }

  // (!!v) << j
  function Flag(v: bv8, j: nat): bv8
    requires j < 8
  {
    if v != 0 then Weight(j) else 0
  }

  // The byte built from the first n of the eight values at `at`.
  function PackByte(v: seq<bv8>, at: nat, n: nat): bv8
    requires n <= 8 && at + n <= |v|
  {
    if n == 0 then 0 else OrByte(PackByte(v, at, n - 1), Flag(v[at + n - 1], n - 1))
  }

  function OrByte(a: bv8, b: bv8): bv8 {
    a | b
  }

  lemma OrBit(a: bv8, v: bv8, i: nat, j: nat)
    requires i < 8 && j < 8
    ensures Bit(OrByte(a, Flag(v, i)), j) <==> Bit(a, j) || (i == j && v != 0)
  {
  }

  lemma {:induction false} PackByteBit(v: seq<bv8>, at: nat, n: nat, j: nat)
    requires n <= 8 && at + n <= |v| && j < 8
    ensures Bit(PackByte(v, at, n), j) <==> j < n && v[at + j] != 0
  {
    if n > 0 {
      PackByteBit(v, at, n - 1, j);
      OrBit(PackByte(v, at, n - 1), v[at + n - 1], n - 1, j);
    }
  }

  // Bytes with the same bits are the same.
  lemma SameBits(a: bv8, b: bv8)
    requires forall j :: 0 <= j < 8 ==> (Bit(a, j) <==> Bit(b, j))
    ensures a == b
  {
    assert Bit(a, 0) == Bit(b, 0) && Bit(a, 1) == Bit(b, 1) && Bit(a, 2) == Bit(b, 2) && Bit(a, 3) == Bit(b, 3);
    assert Bit(a, 4) == Bit(b, 4) && Bit(a, 5) == Bit(b, 5) && Bit(a, 6) == Bit(b, 6) && Bit(a, 7) == Bit(b, 7);
  }

  // The value bytes of a 0x0F request.
  function Packed(v: seq<bv8>, n: nat): (r: seq<bv8>)
    requires 8 * n <= |v|
    ensures |r| == n && forall i :: 0 <= i < n ==> r[i] == PackByte(v, 8 * i, 8)
  {
    if n == 0 then [] else Packed(v, n - 1) + [PackByte(v, 8 * (n - 1), 8)]
  }

  // ALIGNED(value, 8)
  function Aligned8(value: nat): nat {
    (value + 8 - 1) / 8
  }

  predicate CoilOn(payload: seq<bv8>, k: nat)
    requires k < 8 * |payload|
  {
    Bit(payload[k / 8], k % 8)
  }

  // Bit k of the payload is coil k, for every coil asked for and every value behind the last one.
  lemma PackedCoils(v: seq<bv8>, n: nat)
    requires 8 * n <= |v|
    ensures forall k :: 0 <= k < 8 * n ==> (CoilOn(Packed(v, n), k) <==> v[k] != 0)
  {
    hide *;
    forall k | 0 <= k < 8 * n ensures CoilOn(Packed(v, n), k) <==> v[k] != 0 {
      PackedCoil(v, n, k);
    }
  }

  lemma PackedCoil(v: seq<bv8>, n: nat, k: nat)
    requires 8 * n <= |v| && k < 8 * n
    ensures CoilOn(Packed(v, n), k) <==> v[k] != 0
  {
    hide Bit, PackByte, Packed;
    PackByteBit(v, 8 * (k / 8), 8, k % 8);
    assert 8 * (k / 8) + k % 8 == k;
  }

  // The payload is just long enough for n coils and carries them, and its padding is zero if nothing
  // was left behind the last value.
  ghost predicate CarriesCoils(payload: seq<bv8>, v: seq<bv8>, n: nat) {
    && n <= 8 * |payload| < n + 8 && 8 * |payload| <= |v|
    && (forall k :: 0 <= k < n ==> (CoilOn(payload, k) <==> v[k] != 0))
    && ((forall k :: n <= k < 8 * |payload| ==> v[k] == 0) ==>
        forall k :: n <= k < 8 * |payload| ==> !CoilOn(payload, k))
  }

  // The request for nReg coils has ceil(nReg / 8) bytes that carry them.
  lemma PackedRequest(v: seq<bv8>, nReg: nat)
    requires 1 <= nReg <= 2000 && |v| == 2000
    ensures 8 * Aligned8(nReg) <= |v| && CarriesCoils(Packed(v, Aligned8(nReg)), v, nReg)
  {
    PackedCoils(v, Aligned8(nReg));
  }

  // !!(b & (1 << j))
  function BitValue(b: bv8, j: nat): bv8
    requires j < 8
  {
    if Bit(b, j) then 1 else 0
  }

  // The unpacking loops, for any number of payload bytes.
  method Unpack(payload: seq<bv8>, values: array<bv8>)
    requires 8 * |payload| <= values.Length
    modifies values
    ensures forall k :: 0 <= k < 8 * |payload| ==> values[k] == if CoilOn(payload, k) then 1 else 0
    ensures forall k :: 8 * |payload| <= k < values.Length ==> values[k] == old(values[k])
  {
    for i := 0 to |payload|
      invariant forall k :: 0 <= k < 8 * i ==> values[k] == if CoilOn(payload, k) then 1 else 0
      invariant forall k :: 8 * i <= k < values.Length ==> values[k] == old(values[k])
    {
      for j := 0 to 8
        invariant forall k :: 0 <= k < 8 * i + j ==> values[k] == if CoilOn(payload, k) then 1 else 0
        invariant forall k :: 8 * i + j <= k < values.Length ==> values[k] == old(values[k])
      {
        assert (8 * i + j) / 8 == i && (8 * i + j) % 8 == j;
        values[8 * i + j] := BitValue(payload[i], j);
      }
    }
  }

  // Packing and unpacking gives every coil back, on as 1 and off as 0.
  method PackUnpack(v: seq<bv8>, n: nat, values: array<bv8>)
    requires 8 * n <= |v| && 8 * n <= values.Length
    modifies values
    ensures forall k :: 0 <= k < 8 * n ==> values[k] == if v[k] != 0 then 1 else 0
  {
    PackedCoils(v, n);
    Unpack(Packed(v, n), values);
  }

  // ---------------------------------------------------------------------------------------------
  // Sixteen coils as a word of two bytes, and the masks a rule applies to them

  function Low(w: bv16): bv8 {
    (w & 0xFF) as bv8
  }

  function High(w: bv16): bv8 {
    (w >> 8) as bv8
  }

  function ByteOf(w: bv16, i: nat): bv8
    requires i < 2
  {
    if i == 0 then Low(w) else High(w)
  }

  function WordOf(lo: bv8, hi: bv8): bv16 {
    ((hi as bv16) << 8) | (lo as bv16)
  }

  // 1 << k
  function Weight64(k: nat): bv64
    requires k < 16
  {
    match k
    case 0 => 0x1
    case 1 => 0x2
    case 2 => 0x4
    case 3 => 0x8
    case 4 => 0x10
    case 5 => 0x20
    case 6 => 0x40
    case 7 => 0x80
    case 8 => 0x100
    case 9 => 0x200
    case 10 => 0x400
    case 11 => 0x800
    case 12 => 0x1000
    case 13 => 0x2000
    case 14 => 0x4000
    case _ => 0x8000
  }

  predicate Has64(x: bv64, weight: bv64) {
    x & weight != 0
  }

  predicate MaskBit(x: bv64, k: nat)
    requires k < 16
  {
    Has64(x, Weight64(k))
  }

  function Low16(x: bv64): bv16 {
    (x & 0xFFFF) as bv16
  }

  lemma LowByteBits(x: bv64)
    ensures var b := ((x & 0xFFFF) as bv16 & 0xFF) as bv8;
      && (x & 0x1 != 0 <==> b & 1 != 0) && (x & 0x2 != 0 <==> b & 2 != 0)
      && (x & 0x4 != 0 <==> b & 4 != 0) && (x & 0x8 != 0 <==> b & 8 != 0)
      && (x & 0x10 != 0 <==> b & 16 != 0) && (x & 0x20 != 0 <==> b & 32 != 0)
      && (x & 0x40 != 0 <==> b & 64 != 0) && (x & 0x80 != 0 <==> b & 128 != 0)
  {
  }

  lemma HighByteBits(x: bv64)
    ensures var b := ((x & 0xFFFF) as bv16 >> 8) as bv8;
      && (x & 0x100 != 0 <==> b & 1 != 0) && (x & 0x200 != 0 <==> b & 2 != 0)
      && (x & 0x400 != 0 <==> b & 4 != 0) && (x & 0x800 != 0 <==> b & 8 != 0)
      && (x & 0x1000 != 0 <==> b & 16 != 0) && (x & 0x2000 != 0 <==> b & 32 != 0)
      && (x & 0x4000 != 0 <==> b & 64 != 0) && (x & 0x8000 != 0 <==> b & 128 != 0)
  {
  }

  lemma MaskBitIsBit(x: bv64, i: nat, j: nat)
    requires i < 2 && j < 8
    ensures MaskBit(x, 8 * i + j) <==> Bit(ByteOf(Low16(x), i), j)
  {
    LowByteBits(x);
    HighByteBits(x);
    if i == 0 {
      match j { case 0 => case 1 => case 2 => case 3 => case 4 => case 5 => case 6 => case _ => }
    } else {
      match j { case 0 => case 1 => case 2 => case 3 => case 4 => case 5 => case 6 => case _ => }
    }
  }

  lemma ByteWise(c: bv16, up: bv16, down: bv16, i: nat)
    requires i < 2
    ensures ByteOf(SetClear16(c, up, down), i) == SetClear(ByteOf(c, i), ByteOf(up, i), ByteOf(down, i))
  {
    hide *;
    BytesWise(c, up, down);
    BytesOf(c);
    BytesOf(up);
    BytesOf(down);
    BytesOf(SetClear16(c, up, down));
  }

  lemma BytesOf(w: bv16)
    ensures ByteOf(w, 0) == Low(w) && ByteOf(w, 1) == High(w)
  {
  }

  lemma BytesWise(c: bv16, up: bv16, down: bv16)
    ensures Low(SetClear16(c, up, down)) == SetClear(Low(c), Low(up), Low(down))
    ensures High(SetClear16(c, up, down)) == SetClear(High(c), High(up), High(down))
  {
    LowWise(c, up, down);
    HighWise(c, up, down);
  }

  lemma LowWise(c: bv16, up: bv16, down: bv16)
    ensures (((c | up) & !down) & 0xFF) as bv8 == (((c & 0xFF) as bv8) | ((up & 0xFF) as bv8)) & !((down & 0xFF) as bv8)
  {
  }

  lemma HighWise(c: bv16, up: bv16, down: bv16)
    ensures (((c | up) & !down) >> 8) as bv8 == (((c >> 8) as bv8) | ((up >> 8) as bv8)) & !((down >> 8) as bv8)
  {
  }

  predicate SingleBit(w: bv8) {
    w == 1 || w == 2 || w == 4 || w == 8 || w == 16 || w == 32 || w == 64 || w == 128
  }

  // The bits of up set, then those of down cleared.
  function SetClear(c: bv8, up: bv8, down: bv8): bv8 {
    (c | up) & !down
  }

  function SetClear16(c: bv16, up: bv16, down: bv16): bv16 {
    (c | up) & !down
  }

  lemma RawBit(c: bv8, up: bv8, down: bv8, w: bv8)
    requires SingleBit(w)
    ensures ((c | up) & !down) & w != 0 <==> (c & w != 0 || up & w != 0) && !(down & w != 0)
  {
  }

  lemma OneBit(c: bv8, up: bv8, down: bv8, w: bv8)
    requires SingleBit(w)
    ensures Has(SetClear(c, up, down), w) <==> (Has(c, w) || Has(up, w)) && !Has(down, w)
  {
    RawBit(c, up, down, w);
  }

  lemma BitWise(c: bv8, up: bv8, down: bv8, j: nat)
    requires j < 8
    ensures Bit(SetClear(c, up, down), j) <==> (Bit(c, j) || Bit(up, j)) && !Bit(down, j)
  {
    hide Weight, SingleBit, SetClear, Has;
    WeightIs(j);
    OneBit(c, up, down, Weight(j));
  }

  lemma WeightIs(j: nat)
    requires j < 8
    ensures SingleBit(Weight(j))
  {
  }

  lemma WordOfBytes(w: bv16)
    ensures WordOf(ByteOf(w, 0), ByteOf(w, 1)) == w
  {
  }

  // !!(x & (1 << k))
  function MaskValue(x: bv64, k: nat): bv8
    requires k < 16
  {
    if MaskBit(x, k) then 1 else 0
  }

  lemma InvertedBit(x: bv64, k: nat)
    requires k < 16
    ensures MaskBit(!x, k) <==> !MaskBit(x, k)
  {
    hide Weight64, Has64, SingleBit64;
    Weight64Is(k);
    InvertedWeight(x, Weight64(k));
  }

  predicate SingleBit64(w: bv64) {
    || w == 0x1 || w == 0x2 || w == 0x4 || w == 0x8 || w == 0x10 || w == 0x20 || w == 0x40 || w == 0x80
    || w == 0x100 || w == 0x200 || w == 0x400 || w == 0x800 || w == 0x1000 || w == 0x2000 || w == 0x4000 || w == 0x8000
  }

  lemma Weight64Is(k: nat)
    requires k < 16
    ensures SingleBit64(Weight64(k))
  {
  }

  lemma InvertedWeight(x: bv64, w: bv64)
    requires SingleBit64(w)
    ensures Has64(!x, w) <==> !Has64(x, w)
  {
  }

  lemma FlagValues(a: bv8, b: bv8, c: bv8)
    requires (a == 0 || a == 1) && (b == 0 || b == 1) && (c == 0 || c == 1)
    ensures (a | b) & c != 0 <==> (a == 1 || b == 1) && c == 1
  {
  }

  predicate Apart16(x: bv16, y: bv16) {
    x & y == 0
  }

  lemma RawTwice(c: bv16, up1: bv16, down1: bv16, up2: bv16, down2: bv16)
    requires up2 & down1 == 0
    ensures (((c | up1) & !down1) | up2) & !down2 == (c | (up1 | up2)) & !(down1 | down2)
  {
  }

  // Setting and clearing twice is setting and clearing once, if the second sets nothing the first cleared.
  lemma SetClearTwice(c: bv16, up1: bv16, down1: bv16, up2: bv16, down2: bv16)
    requires Apart16(up2, down1)
    ensures SetClear16(SetClear16(c, up1, down1), up2, down2) == SetClear16(c, Or(up1, up2), Or(down1, down2))
  {
    RawTwice(c, up1, down1, up2, down2);
  }

  function Or(x: bv16, y: bv16): bv16 {
    x | y
  }

  // Coil k of a word of sixteen.
  predicate Coil(c: bv16, k: nat)
    requires k < 16
  {
    Bit(ByteOf(c, k / 8), k % 8)
  }

  lemma CoilOr(x: bv16, y: bv16, k: nat)
    requires k < 16
    ensures Coil(Or(x, y), k) <==> Coil(x, k) || Coil(y, k)
  {
    hide Bit;
    BytesOf(x);
    BytesOf(y);
    BytesOf(Or(x, y));
    RawOr(x, y);
    hide *;
    CoilAt(x, k);
    CoilAt(y, k);
    CoilAt(Or(x, y), k);
    ByteOr(ByteOf(x, k / 8), ByteOf(y, k / 8), k % 8);
  }

  lemma CoilAt(c: bv16, k: nat)
    requires k < 16
    ensures Coil(c, k) <==> Bit(ByteOf(c, k / 8), k % 8)
  {
  }

  lemma RawOr(x: bv16, y: bv16)
    ensures Low(Or(x, y)) == OrByte(Low(x), Low(y)) && High(Or(x, y)) == OrByte(High(x), High(y))
  {
  }

  lemma ByteOr(a: bv8, b: bv8, j: nat)
    requires j < 8
    ensures Bit(OrByte(a, b), j) <==> Bit(a, j) || Bit(b, j)
  {
    hide Weight;
    RawHas(a, b, Weight(j));
  }

  lemma RawHas(a: bv8, b: bv8, w: bv8)
    ensures (a | b) & w != 0 <==> a & w != 0 || b & w != 0
  {
  }

  // Setting and clearing, coil by coil.
  lemma CoilSetClear(c: bv16, up: bv16, down: bv16, k: nat)
    requires k < 16
    ensures Coil(SetClear16(c, up, down), k) <==> (Coil(c, k) || Coil(up, k)) && !Coil(down, k)
  {
    hide Bit, ByteOf, SetClear, SetClear16;
    ByteWise(c, up, down, k / 8);
    BitWise(ByteOf(c, k / 8), ByteOf(up, k / 8), ByteOf(down, k / 8), k % 8);
  }

  // Two words are apart exactly if no coil is on in both.
  lemma ApartCoils(x: bv16, y: bv16)
    ensures Apart16(x, y) <==> forall k: nat :: k < 16 && Coil(x, k) ==> !Coil(y, k)
  {
    RawApart(x, y);
    BytesOf(x);
    BytesOf(y);
    ApartBits(Low(x), Low(y));
    ApartBits(High(x), High(y));
    hide *;
    forall k: nat | k < 16 ensures Coil(x, k) <==> Bit(ByteOf(x, k / 8), k % 8)
      ensures Coil(y, k) <==> Bit(ByteOf(y, k / 8), k % 8)
    {
      CoilAt(x, k);
      CoilAt(y, k);
    }
    if !ApartBytes(Low(x), Low(y)) {
      var j: nat :| j < 8 && Bit(Low(x), j) && Bit(Low(y), j);
      assert Coil(x, j) && Coil(y, j);
    }
    if !ApartBytes(High(x), High(y)) {
      var j: nat :| j < 8 && Bit(High(x), j) && Bit(High(y), j);
      assert (8 + j) / 8 == 1 && (8 + j) % 8 == j;
      assert Coil(x, 8 + j) && Coil(y, 8 + j);
    }
  }

  predicate ApartBytes(a: bv8, b: bv8) {
    a & b == 0
  }

  lemma RawApart(x: bv16, y: bv16)
    ensures Apart16(x, y) <==> ApartBytes(Low(x), Low(y)) && ApartBytes(High(x), High(y))
  {
  }

  lemma ApartBits(a: bv8, b: bv8)
    ensures ApartBytes(a, b) <==> forall j: nat :: j < 8 && Bit(a, j) ==> !Bit(b, j)
  {
    BitIs(a);
    BitIs(b);
    hide Bit;
    if !ApartBytes(a, b) {
      assert !(forall j: nat :: j < 8 && Bit(a, j) ==> !Bit(b, j));
    } else {
      forall j: nat | j < 8 && Bit(a, j) ensures !Bit(b, j) {
        match j { case 0 => case 1 => case 2 => case 3 => case 4 => case 5 => case 6 => case _ => }
      }
    }
  }

  lemma NoCoil(k: nat)
    requires k < 16
    ensures !Coil(0, k)
  {
  }

  lemma SetClearNothing(c: bv16)
    ensures SetClear16(c, 0, 0) == c && Apart16(c, 0)
  {
  }

  // Once set and cleared, setting and clearing the same bits again changes nothing.
  lemma SetClearAgain(c: bv16, up: bv16, down: bv16)
    ensures SetClear16(SetClear16(c, up, down), up, down) == SetClear16(c, up, down)
  {
  }

  lemma LowApart(x: bv64, y: bv64)
    requires x & y == 0
    ensures Apart16(Low16(x), Low16(y))
  {
  }

  lemma ApartOr(x: bv16, y: bv16, z: bv16)
    requires Apart16(x, y) && Apart16(x, z)
    ensures Apart16(x, Or(y, z)) && Apart16(Or(y, z), x)
  {
  }

  lemma OrMoves(x: bv16, y: bv16, z: bv16)
    ensures Or(Or(x, y), z) == Or(Or(x, z), y)
  {
  }

  // The mask a pass matches against: coil k is bit k, the other bits are zero.
  function InputMask(c: bv16): bv64 {
    c as bv64
  }

  predicate OnAll(c: bv16, wanted: bv16) {
    c & wanted == wanted
  }

  predicate OffAll(c: bv16, wanted: bv16) {
    c & wanted == 0
  }

  // Nothing above the sixteenth bit.
  predicate Sixteen(x: bv64) {
    x & 0xFFFF == x
  }

  lemma SeenOn(c: bv16, up: bv64)
    requires InputMask(c) & up == up
    ensures OnAll(c, Low16(up)) && Sixteen(up)
  {
  }

  lemma OnSeen(c: bv16, up: bv64)
    requires OnAll(c, Low16(up)) && Sixteen(up)
    ensures InputMask(c) & up == up
  {
  }

  lemma SeenOff(c: bv16, down: bv64)
    requires InputMask(c) & down == 0
    ensures OffAll(c, Low16(down))
  {
  }

  lemma OffSeen(c: bv16, down: bv64)
    requires OffAll(c, Low16(down))
    ensures InputMask(c) & down == 0
  {
  }

  // The wanted bits that are up in the mask, and those that are down.
  function SeenUp(mask: bv64, wanted: bv64): bv64 {
    mask & wanted
  }

  function SeenDown(mask: bv64, wanted: bv64): bv64 {
    !mask & wanted
  }

  // Setting and clearing other bits than the wanted ones is not seen.
  lemma SameSeen(c: bv16, up: bv16, down: bv16, wanted: bv64)
    requires Apart16(Low16(wanted), up) && Apart16(Low16(wanted), down)
    ensures SeenUp(InputMask(SetClear16(c, up, down)), wanted) == SeenUp(InputMask(c), wanted)
    ensures SeenDown(InputMask(SetClear16(c, up, down)), wanted) == SeenDown(InputMask(c), wanted)
  {
    hide *;
    SeenLow(c, wanted);
    SeenLow(SetClear16(c, up, down), wanted);
    KeptLow(c, up, down, Low16(wanted));
  }

  function Keep(c: bv16, wanted: bv16): bv16 {
    c & wanted
  }

  function Miss(c: bv16, wanted: bv16): bv16 {
    !c & wanted
  }

  function Widen(c: bv16): bv64 {
    c as bv64
  }

  function WidenOver(c: bv16, wanted: bv64): bv64 {
    (c as bv64) | (wanted & 0xFFFF_FFFF_FFFF_0000)
  }

  lemma SeenLow(c: bv16, wanted: bv64)
    ensures SeenUp(InputMask(c), wanted) == Widen(Keep(c, Low16(wanted)))
    ensures SeenDown(InputMask(c), wanted) == WidenOver(Miss(c, Low16(wanted)), wanted)
  {
  }

  lemma KeptLow(c: bv16, up: bv16, down: bv16, wanted: bv16)
    requires Apart16(wanted, up) && Apart16(wanted, down)
    ensures Keep(SetClear16(c, up, down), wanted) == Keep(c, wanted)
    ensures Miss(SetClear16(c, up, down), wanted) == Miss(c, wanted)
  {
    hide *;
    KeepIs(c, up, down, wanted);
    MissIs(c, up, down, wanted);
    RawKept(c, up, down, wanted);
    RawMissed(c, up, down, wanted);
  }

  lemma KeepIs(c: bv16, up: bv16, down: bv16, wanted: bv16)
    ensures Keep(SetClear16(c, up, down), wanted) == ((c | up) & !down) & wanted && Keep(c, wanted) == c & wanted
  {
  }

  lemma MissIs(c: bv16, up: bv16, down: bv16, wanted: bv16)
    ensures Miss(SetClear16(c, up, down), wanted) == !((c | up) & !down) & wanted && Miss(c, wanted) == !c & wanted
  {
  }

  lemma RawKept(c: bv16, up: bv16, down: bv16, wanted: bv16)
    requires Apart16(wanted, up) && Apart16(wanted, down)
    ensures ((c | up) & !down) & wanted == c & wanted
  {
  }

  lemma RawMissed(c: bv16, up: bv16, down: bv16, wanted: bv16)
    requires Apart16(wanted, up) && Apart16(wanted, down)
    ensures !((c | up) & !down) & wanted == !c & wanted
  {
  }

  // value << (i * 8)
  function Shifted(value: bv8, i: nat): bv64
    requires i < 2
  {
    if i == 0 then value as bv64 else (value as bv64) << 8
  }

  // The mask built from the first n bytes of a reply.
  function Gathered(reply: seq<bv8>, n: nat): bv64
    requires n <= |reply| <= 2
  {
    if n == 0 then 0 else OrMask(Gathered(reply, n - 1), Shifted(reply[n - 1], n - 1))
  }

  function OrMask(x: bv64, y: bv64): bv64 {
    x | y
  }

  lemma GatheredIsMask(c: bv16)
    ensures Gathered([ByteOf(c, 0), ByteOf(c, 1)], 2) == InputMask(c)
  {
    hide Shifted, ByteOf, InputMask, OrMask;
    GatherTwo([ByteOf(c, 0), ByteOf(c, 1)]);
    ShiftBack(c);
  }

  lemma GatherTwo(reply: seq<bv8>)
    requires |reply| == 2
    ensures Gathered(reply, 2) == OrMask(OrMask(0, Shifted(reply[0], 0)), Shifted(reply[1], 1))
  {
    hide Shifted, OrMask;
    assert Gathered(reply, 1) == OrMask(Gathered(reply, 0), Shifted(reply[0], 0));
  }

  lemma ShiftBack(c: bv16)
    ensures OrMask(OrMask(0, Shifted(ByteOf(c, 0), 0)), Shifted(ByteOf(c, 1), 1)) == InputMask(c)
  {
  }
}
