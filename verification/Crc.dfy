/**
 The RTU checksum of `mb_rtu.c`, `crc_calc`, and what it detects. A frame carries the checksum of
 its other bytes low byte first (sections 2.5.1.2 and 6.2.2 of MODBUS over Serial Line V1.02).
 Bits are taken in the order they go on the line: byte by byte, least significant first.
 */
module Crc {
  import opened Coils

  // One turn of the inner loop.
  function Step(c: bv16): bv16 {
    if Odd(c) then Xor(Half(c), 0xA001) else Half(c)
  }

  predicate Odd(c: bv16) {
    c & 1 == 1
  }

  function Half(c: bv16): bv16 {
    c >> 1
  }

  function Steps(c: bv16, n: nat): bv16
    decreases n
  {
    if n == 0 then c else Steps(Step(c), n - 1)
  }

  function Xor(a: bv16, b: bv16): bv16 {
    a ^ b
  }

  function FeedByte(c: bv16, b: bv8): bv16 {
    Steps(Xor(c, Wide(b)), 8)
  }

  function Wide(b: bv8): bv16 {
    b as bv16
  }

  // The checksum register after the bytes of data.
  function Feed(c: bv16, data: seq<bv8>): bv16 {
    if data == [] then c else FeedByte(Feed(c, data[..|data| - 1]), data[|data| - 1])
  }

  function Checksum(data: seq<bv8>): bv16 {
    Feed(0xFFFF, data)
  }

  // ---------------------------------------------------------------------------------------------
  // The step is linear and loses nothing

  lemma OddXor(a: bv16, b: bv16)
    ensures Odd(Xor(a, b)) <==> Odd(a) != Odd(b)
  {
  }

  lemma HalfXor(a: bv16, b: bv16)
    ensures Half(Xor(a, b)) == Xor(Half(a), Half(b))
  {
  }

  lemma XorCommutes(a: bv16, b: bv16)
    ensures Xor(a, b) == Xor(b, a)
  {
  }

  lemma XorAssociates(a: bv16, b: bv16, c: bv16)
    ensures Xor(Xor(a, b), c) == Xor(a, Xor(b, c))
  {
  }

  lemma XorUnits(a: bv16)
    ensures Xor(a, 0) == a && Xor(0, a) == a && Xor(a, a) == 0
  {
  }

  lemma XorZero(a: bv16, b: bv16)
    requires Xor(a, b) == 0
    ensures a == b
  {
  }

  lemma StepLinear(a: bv16, b: bv16)
    ensures Step(Xor(a, b)) == Xor(Step(a), Step(b))
  {
    hide Xor, Odd, Half;
    var x, y, t := Half(a), Half(b), 0xA001;
    OddXor(a, b);
    HalfXor(a, b);
    // (x + t) + (y + t) == x + y, (x + t) + y == x + (y + t) == (x + y) + t
    XorAssociates(x, y, t);
    XorCommutes(y, t);
    XorAssociates(x, t, y);
    XorAssociates(x, t, Xor(y, t));
    XorAssociates(t, y, t);
    XorCommutes(Xor(y, t), t);
    XorAssociates(y, t, t);
    XorUnits(t);
    XorUnits(y);
  }

  lemma {:induction false} StepsLinear(a: bv16, b: bv16, n: nat)
    ensures Steps(Xor(a, b), n) == Xor(Steps(a, n), Steps(b, n))
    decreases n
  {
    hide Xor, Step;
    if n > 0 {
      StepLinear(a, b);
      StepsLinear(Step(a), Step(b), n - 1);
    }
  }

  lemma StepNonZero(c: bv16)
    ensures Step(c) == 0 <==> c == 0
  {
  }

  lemma {:induction false} StepsNonZero(c: bv16, n: nat)
    ensures Steps(c, n) == 0 <==> c == 0
    decreases n
  {
    hide Step;
    if n > 0 {
      StepNonZero(c);
      StepsNonZero(Step(c), n - 1);
    }
  }

  // ---------------------------------------------------------------------------------------------
  // Bit by bit

  function OneIf(bit: bool): bv16 {
    if bit then 1 else 0
  }

  function FeedBits(c: bv16, bits: seq<bool>): bv16
    decreases |bits|
  {
    if bits == [] then c else FeedBits(Step(Xor(c, OneIf(bits[0]))), bits[1..])
  }

  // The first bit is the least significant.
  function WordOfBits(bits: seq<bool>): bv16 {
    if bits == [] then 0 else Push(WordOfBits(bits[1..]), bits[0])
  }

  function Push(w: bv16, bit: bool): bv16 {
    (w << 1) | OneIf(bit)
  }

  // The bits n and up.
  function HighMask(n: nat): bv16
    requires n <= 16
  {
    match n
    case 0 => 0xFFFF
    case 1 => 0xFFFE
    case 2 => 0xFFFC
    case 3 => 0xFFF8
    case 4 => 0xFFF0
    case 5 => 0xFFE0
    case 6 => 0xFFC0
    case 7 => 0xFF80
    case 8 => 0xFF00
    case 9 => 0xFE00
    case 10 => 0xFC00
    case 11 => 0xF800
    case 12 => 0xF000
    case 13 => 0xE000
    case 14 => 0xC000
    case 15 => 0x8000
    case _ => 0
  }

  lemma NextMask(n: nat)
    requires n < 16
    ensures HighMask(n + 1) == HighMask(n) << 1 && HighMask(n) & 0x8000 == 0x8000
  {
  }

  predicate Below(w: bv16, mask: bv16) {
    w & mask == 0
  }

  lemma PushBelow(w: bv16, mask: bv16, bit: bool)
    requires Below(w, mask)
    ensures Below(Push(w, bit), mask << 1)
  {
  }

  lemma {:induction false} WordBelow(bits: seq<bool>)
    requires |bits| <= 16
    ensures Below(WordOfBits(bits), HighMask(|bits|))
  {
    hide Push, Below, HighMask;
    if bits == [] {
      ZeroBelow();
    } else {
      WordBelow(bits[1..]);
      NextMask(|bits| - 1);
      PushBelow(WordOfBits(bits[1..]), HighMask(|bits| - 1), bits[0]);
    }
  }

  lemma ZeroBelow()
    ensures Below(0, HighMask(0))
  {
  }

  // Pushing a bit is undone by a step that takes the bit out again, if no bit falls off the top.
  lemma StepPush(w: bv16, mask: bv16, bit: bool)
    requires Below(w, mask) && mask & 0x8000 == 0x8000
    ensures Step(Xor(Push(w, bit), OneIf(bit))) == w
  {
  }

  lemma PushZero(w: bv16, mask: bv16, bit: bool)
    requires Below(w, mask) && mask & 0x8000 == 0x8000
    ensures Push(w, bit) == 0 <==> w == 0 && !bit
  {
  }

  lemma {:induction false} WordZero(bits: seq<bool>)
    requires |bits| <= 16
    ensures WordOfBits(bits) == 0 <==> forall i :: 0 <= i < |bits| ==> !bits[i]
  {
    hide Push, Below, HighMask;
    if bits != [] {
      WordZero(bits[1..]);
      WordBelow(bits[1..]);
      NextMask(|bits| - 1);
      PushZero(WordOfBits(bits[1..]), HighMask(|bits| - 1), bits[0]);
      assert forall i :: 0 <= i < |bits| - 1 ==> bits[1..][i] == bits[i + 1];
      assert forall i :: 0 < i < |bits| ==> bits[i] == bits[1..][i - 1];
    }
  }

  // Up to sixteen bits at a time, the register takes in a word and then steps.
  lemma {:induction false} FeedWord(c: bv16, bits: seq<bool>)
    requires |bits| <= 16
    ensures FeedBits(c, bits) == Steps(Xor(c, WordOfBits(bits)), |bits|)
    decreases |bits|
  {
    hide Push, Below, HighMask, Step, Xor, OneIf;
    if bits == [] {
      XorUnits(c);
    } else {
      var rest, b := WordOfBits(bits[1..]), OneIf(bits[0]);
      var w := Push(rest, bits[0]);
      FeedWord(Step(Xor(c, b)), bits[1..]);
      WordBelow(bits[1..]);
      NextMask(|bits| - 1);
      StepPush(rest, HighMask(|bits| - 1), bits[0]);
      // Step(c + w) == Step((c + b) + (w + b)) == Step(c + b) + rest
      StepLinear(Xor(c, b), Xor(w, b));
      XorAssociates(c, b, Xor(w, b));
      XorCommutes(w, b);
      XorAssociates(b, b, w);
      XorUnits(b);
      XorUnits(w);
    }
  }

  lemma {:induction false} FeedBitsAppend(c: bv16, a: seq<bool>, b: seq<bool>)
    ensures FeedBits(c, a + b) == FeedBits(FeedBits(c, a), b)
    decreases |a|
  {
    hide Step, Xor, OneIf;
    if a == [] {
      assert a + b == b;
    } else {
      assert (a + b)[1..] == a[1..] + b;
      FeedBitsAppend(Step(Xor(c, OneIf(a[0]))), a[1..], b);
    }
  }

  // ---------------------------------------------------------------------------------------------
  // Bytes as bits

  function ByteBits(b: bv8): (r: seq<bool>)
    ensures |r| == 8 && forall j :: 0 <= j < 8 ==> r[j] == Bit(b, j)
  {
    [Bit(b, 0), Bit(b, 1), Bit(b, 2), Bit(b, 3), Bit(b, 4), Bit(b, 5), Bit(b, 6), Bit(b, 7)]
  }

  function Bits(data: seq<bv8>): (r: seq<bool>)
    ensures |r| == 8 * |data|
    ensures forall k :: 0 <= k < |r| ==> r[k] == Bit(data[k / 8], k % 8)
  {
    if data == [] then [] else Bits(data[..|data| - 1]) + ByteBits(data[|data| - 1])
  }

  lemma WordOfByte(b: bv8)
    ensures WordOfBits(ByteBits(b)) == Wide(b)
  {
    hide *;
    EightBits(b);
    var bits := ByteBits(b);
    PushFrom(bits, 0);
    PushFrom(bits, 1);
    PushFrom(bits, 2);
    PushFrom(bits, 3);
    PushFrom(bits, 4);
    PushFrom(bits, 5);
    PushFrom(bits, 6);
    PushFrom(bits, 7);
    NoBits(bits[8..]);
    assert bits[0..] == bits;
  }

  lemma PushFrom(bits: seq<bool>, k: nat)
    requires k < |bits|
    ensures WordOfBits(bits[k..]) == Push(WordOfBits(bits[k + 1..]), bits[k])
  {
    assert bits[k..][1..] == bits[k + 1..];
  }

  lemma NoBits(bits: seq<bool>)
    requires |bits| == 0
    ensures WordOfBits(bits) == 0
  {
  }

  lemma EightBits(b: bv8)
    ensures Push(Push(Push(Push(Push(Push(Push(Push(0, Bit(b, 7)), Bit(b, 6)), Bit(b, 5)), Bit(b, 4)),
            Bit(b, 3)), Bit(b, 2)), Bit(b, 1)), Bit(b, 0)) == Wide(b)
  {
  }

  lemma {:induction false} FeedIsFeedBits(c: bv16, data: seq<bv8>)
    ensures Feed(c, data) == FeedBits(c, Bits(data))
  {
    hide Step, Xor, OneIf, Bit, ByteBits, Steps, Wide;
    if data != [] {
      var n := |data| - 1;
      FeedIsFeedBits(c, data[..n]);
      FeedBitsAppend(c, Bits(data[..n]), ByteBits(data[n]));
      FeedWord(Feed(c, data[..n]), ByteBits(data[n]));
      WordOfByte(data[n]);
    }
  }

  // ---------------------------------------------------------------------------------------------
  // Frames and errors

  // Where two bit strings differ.
  function Differs(x: seq<bool>, y: seq<bool>): (r: seq<bool>)
    requires |x| == |y|
    ensures |r| == |x| && forall k :: 0 <= k < |r| ==> r[k] == (x[k] != y[k])
  {
    seq(|x|, k requires 0 <= k < |x| => x[k] != y[k])
  }

  lemma OneIfXor(a: bool, b: bool)
    ensures Xor(OneIf(a), OneIf(b)) == OneIf(a != b)
  {
  }

  // The registers of two frames differ by the register of where they differ.
  lemma {:induction false} FeedBitsLinear(c: bv16, d: bv16, x: seq<bool>, y: seq<bool>)
    requires |x| == |y|
    ensures FeedBits(Xor(c, d), Differs(x, y)) == Xor(FeedBits(c, x), FeedBits(d, y))
    decreases |x|
  {
    hide Step, Xor, OneIf;
    if x != [] {
      var a, b := OneIf(x[0]), OneIf(y[0]);
      FeedBitsLinear(Step(Xor(c, a)), Step(Xor(d, b)), x[1..], y[1..]);
      assert Differs(x, y)[1..] == Differs(x[1..], y[1..]);
      OneIfXor(x[0], y[0]);
      StepLinear(Xor(c, a), Xor(d, b));
      XorSwap(c, a, d, b);
    }
  }

  lemma XorSwap(c: bv16, a: bv16, d: bv16, b: bv16)
    ensures Xor(Xor(c, a), Xor(d, b)) == Xor(Xor(c, d), Xor(a, b))
  {
    hide Xor;
    XorAssociates(c, a, Xor(d, b));
    XorAssociates(a, d, b);
    XorCommutes(a, d);
    XorAssociates(d, a, b);
    XorAssociates(c, d, Xor(a, b));
  }

  lemma {:induction false} FeedZeros(c: bv16, bits: seq<bool>)
    requires forall i :: 0 <= i < |bits| ==> !bits[i]
    ensures FeedBits(c, bits) == 0 <==> c == 0
    decreases |bits|
  {
    hide Step, Xor;
    if bits != [] {
      XorUnits(c);
      StepNonZero(c);
      FeedZeros(Step(c), bits[1..]);
    }
  }

  // An error confined to sixteen bits in a row leaves a register that is not zero.
  lemma BurstShows(bits: seq<bool>, p: nat)
    requires p + 16 <= |bits|
    requires forall k :: 0 <= k < |bits| && bits[k] ==> p <= k < p + 16
    ensures FeedBits(0, bits) == 0 <==> forall k :: 0 <= k < |bits| ==> !bits[k]
  {
    var before, burst, after := bits[..p], bits[p..p + 16], bits[p + 16..];
    assert bits == before + (burst + after);
    FeedBitsAppend(0, before, burst + after);
    FeedBitsAppend(FeedBits(0, before), burst, after);
    FeedZeros(0, before);
    hide Xor, Step, OneIf, FeedBits, Steps;
    FeedWord(0, burst);
    XorUnits(WordOfBits(burst));
    StepsNonZero(WordOfBits(burst), 16);
    WordZero(burst);
    FeedZeros(FeedBits(0, burst), after);
    assert forall k :: 0 <= k < 16 ==> burst[k] == bits[p + k];
    assert forall k :: p <= k < p + 16 ==> bits[k] == burst[k - p];
  }

  // A message with its checksum, low byte first.
  function Frame(message: seq<bv8>): seq<bv8> {
    message + [Low(Checksum(message)), High(Checksum(message))]
  }

  // The receiver's check: the last two bytes are the checksum of the others.
  predicate Accepted(frame: seq<bv8>) {
    |frame| >= 2 && frame == Frame(frame[..|frame| - 2])
  }

  lemma FrameAccepted(message: seq<bv8>)
    ensures Accepted(Frame(message))
  {
    var f := Frame(message);
    assert f[..|f| - 2] == message;
  }

  // ---------------------------------------------------------------------------------------------
  // The residue: a frame is accepted exactly when the register after all its bytes is zero

  function OnTop(h: bv8): bv16 {
    (h as bv16) << 8
  }

  lemma LowClears(c: bv16)
    ensures Xor(c, Wide(Low(c))) == OnTop(High(c))
  {
  }

  // Eight zero bits at the bottom are shifted out unchanged.
  lemma ShiftOut(h: bv8)
    ensures Steps(OnTop(h), 8) == Wide(h)
  {
    var c := OnTop(h);
    EightEven(h);
    hide Odd, Half, OnTop, Wide;
    assert Steps(c, 8) == Steps(Step(c), 7);
    assert Steps(Half(c), 7) == Steps(Step(Half(c)), 6);
    assert Steps(Half(Half(c)), 6) == Steps(Step(Half(Half(c))), 5);
    assert Steps(Half(Half(Half(c))), 5) == Steps(Step(Half(Half(Half(c)))), 4);
    assert Steps(Half(Half(Half(Half(c)))), 4) == Steps(Step(Half(Half(Half(Half(c))))), 3);
    assert Steps(Half(Half(Half(Half(Half(c))))), 3) == Steps(Step(Half(Half(Half(Half(Half(c)))))), 2);
  }

  lemma EightEven(h: bv8)
    ensures var c := OnTop(h);
      && !Odd(c) && !Odd(Half(c)) && !Odd(Half(Half(c))) && !Odd(Half(Half(Half(c))))
      && !Odd(Half(Half(Half(Half(c))))) && !Odd(Half(Half(Half(Half(Half(c))))))
      && !Odd(Half(Half(Half(Half(Half(Half(c)))))))
      && !Odd(Half(Half(Half(Half(Half(Half(Half(c))))))))
      && Half(Half(Half(Half(Half(Half(Half(Half(c)))))))) == Wide(h)
  {
  }

  lemma {:induction false} StepsInjective(a: bv16, b: bv16, n: nat)
    requires Steps(a, n) == Steps(b, n)
    ensures a == b
  {
    hide Xor, Steps;
    StepsLinear(a, b, n);
    XorUnits(Steps(a, n));
    StepsNonZero(Xor(a, b), n);
    XorZero(a, b);
  }

  // Two more bytes bring the register to zero exactly when they are its value, low byte first.
  lemma TwoBytes(c: bv16, lo: bv8, hi: bv8)
    ensures FeedByte(FeedByte(c, lo), hi) == 0 <==> lo == Low(c) && hi == High(c)
  {
    hide Xor, Steps, Low, High, Wide, OnTop;
    var r := FeedByte(c, lo);
    StepsNonZero(Xor(r, Wide(hi)), 8);
    LowClears(c);
    ShiftOut(High(c));
    XorUnits(Wide(High(c)));
    if FeedByte(r, hi) == 0 {
      XorZero(r, Wide(hi));
      ShiftOut(hi);
      StepsInjective(Xor(c, Wide(lo)), OnTop(hi), 8);
      SplitWord(c, lo, hi);
    }
  }

  lemma SplitWord(c: bv16, lo: bv8, hi: bv8)
    requires Xor(c, Wide(lo)) == OnTop(hi)
    ensures lo == Low(c) && hi == High(c)
  {
  }

  // The register after the first k bytes.
  function FedUpTo(data: seq<bv8>, k: nat): bv16
    requires k <= |data|
  {
    Feed(0xFFFF, data[..k])
  }

  lemma FedEnds(data: seq<bv8>)
    ensures FedUpTo(data, 0) == 0xFFFF && FedUpTo(data, |data|) == Checksum(data)
  {
    assert data[..|data|] == data;
  }

  lemma FedNext(data: seq<bv8>, k: nat)
    requires k < |data|
    ensures FedUpTo(data, k + 1) == FeedByte(FedUpTo(data, k), data[k])
  {
    hide FeedByte;
    assert data[..k + 1][..k] == data[..k];
  }

  lemma AcceptedEnds(frame: seq<bv8>)
    requires |frame| >= 2
    ensures var n := |frame| - 2; var c := FedUpTo(frame, n);
      Accepted(frame) <==> frame[n] == Low(c) && frame[n + 1] == High(c)
  {
    hide Feed, Low, High;
    var n := |frame| - 2;
    assert frame == frame[..n] + [frame[n], frame[n + 1]];
  }

  lemma Residue(frame: seq<bv8>)
    requires |frame| >= 2
    ensures Accepted(frame) <==> Feed(0xFFFF, frame) == 0
  {
    hide *;
    var n := |frame| - 2;
    AcceptedEnds(frame);
    FedNext(frame, n);
    FedNext(frame, n + 1);
    FedEnds(frame);
    ChecksumIs(frame);
    TwoBytes(FedUpTo(frame, n), frame[n], frame[n + 1]);
  }

  lemma ChecksumIs(frame: seq<bv8>)
    ensures Checksum(frame) == Feed(0xFFFF, frame)
  {
  }

  // Two accepted frames of one length that differ only within sixteen bits in a row are the same
  // frame: no such error goes unnoticed, whatever the message.
  lemma BurstDetected(sent: seq<bv8>, received: seq<bv8>, p: nat)
    requires Accepted(sent) && Accepted(received) && |sent| == |received|
    requires forall k :: 0 <= k < 8 * |sent| && Bits(sent)[k] != Bits(received)[k] ==> p <= k < p + 16
    ensures sent == received
  {
    var x, y := Bits(sent), Bits(received);
    var d := Differs(x, y);
    hide Accepted, Feed, Xor, FeedBits, Bits, Differs;
    DifferenceRegister(sent, received);
    var q := if p + 16 <= |d| then p else |d| - 16;
    assert forall k :: 0 <= k < |d| && d[k] ==> q <= k < q + 16;
    BurstShows(d, q);
    SameBytes(sent, received);
  }

  lemma DifferenceRegister(sent: seq<bv8>, received: seq<bv8>)
    requires Accepted(sent) && Accepted(received) && |sent| == |received|
    ensures |sent| >= 2 && FeedBits(0, Differs(Bits(sent), Bits(received))) == 0
  {
    Residue(sent);
    Residue(received);
    hide Feed, Xor, FeedBits, Bits, Differs;
    FeedIsFeedBits(0xFFFF, sent);
    FeedIsFeedBits(0xFFFF, received);
    FeedBitsLinear(0xFFFF, 0xFFFF, Bits(sent), Bits(received));
    XorUnits(0xFFFF);
    XorUnits(0);
  }

  lemma SameBytes(x: seq<bv8>, y: seq<bv8>)
    requires |x| == |y| && forall k :: 0 <= k < 8 * |x| ==> !Differs(Bits(x), Bits(y))[k]
    ensures x == y
  {
    hide Bit;
    forall i | 0 <= i < |x| ensures x[i] == y[i] {
      forall j | 0 <= j < 8 ensures Bit(x[i], j) <==> Bit(y[i], j) {
        var k := 8 * i + j;
        assert k / 8 == i && k % 8 == j;
        assert !Differs(Bits(x), Bits(y))[k];
      }
      SameBits(x[i], y[i]);
    }
  }

  // Seventeen bits in a row is one too many: the frames of the messages 00 and 03 differ only in
  // bits 0 to 16.
  lemma SeventeenMissed() returns (sent: seq<bv8>, received: seq<bv8>)
    ensures Accepted(sent) && Accepted(received) && |sent| == |received| == 3
    ensures sent != received
    ensures forall k :: 0 <= k < 24 && Bits(sent)[k] != Bits(received)[k] ==> 0 <= k < 17
  {
    sent, received := Frame([0]), Frame([3]);
    FrameAccepted([0]);
    FrameAccepted([3]);
    ChecksumOfOne(0);
    ChecksumOfOne(3);
    FedByte(0xFFFF, 0);
    FedByte(0xFFFF, 3);
    assert sent == [0, 0xbf, 0x40] && received == [3, 0xff, 0x41];
    forall k | 17 <= k < 24 ensures Bits(sent)[k] == Bits(received)[k] {
      assert k / 8 == 2;
      TopBits(k % 8);
    }
  }

  lemma TopBits(j: nat)
    requires 1 <= j < 8
    ensures Bit(0x40, j) == Bit(0x41, j)
  {
  }

  lemma ChecksumOfOne(b: bv8)
    ensures Checksum([b]) == FeedByte(0xFFFF, b)
  {
    assert [b][..0] == [];
    assert Feed(0xFFFF, [b]) == FeedByte(Feed(0xFFFF, []), b);
  }

  // What a byte makes of the register, step by step.
  lemma FedByte(c: bv16, b: bv8)
    ensures FeedByte(c, b) == Step(Step(Step(Step(Step(Step(Step(Step(Xor(c, Wide(b))))))))))
  {
  }

  lemma CheckSteps()
    ensures FeedByte(0xffff, 0x31) == 0x947e && FeedByte(0x947e, 0x32) == 0xf595 && FeedByte(0xf595, 0x33) == 0x7a75
    ensures FeedByte(0x7a75, 0x34) == 0x30ba && FeedByte(0x30ba, 0x35) == 0xa471 && FeedByte(0xa471, 0x36) == 0x32e4
    ensures FeedByte(0x32e4, 0x37) == 0x9d73 && FeedByte(0x9d73, 0x38) == 0x37dd && FeedByte(0x37dd, 0x39) == 0x4b37
  {
    FedByte(0xffff, 0x31);
    FedByte(0x947e, 0x32);
    FedByte(0xf595, 0x33);
    FedByte(0x7a75, 0x34);
    FedByte(0x30ba, 0x35);
    FedByte(0xa471, 0x36);
    FedByte(0x32e4, 0x37);
    FedByte(0x9d73, 0x38);
    FedByte(0x37dd, 0x39);
    hide FeedByte;
  }

  // The check value of this checksum in the catalogues: the digits 1 to 9 give 4B37.
  lemma CheckValue()
    ensures Checksum([0x31, 0x32, 0x33, 0x34, 0x35, 0x36, 0x37, 0x38, 0x39]) == 0x4B37
  {
    hide *;
    CheckSteps();
    var digits := [0x31, 0x32, 0x33, 0x34, 0x35, 0x36, 0x37, 0x38, 0x39];
    FedEnds(digits);
    FedNext(digits, 0);
    FedNext(digits, 1);
    FedNext(digits, 2);
    FedNext(digits, 3);
    FedNext(digits, 4);
    FedNext(digits, 5);
    FedNext(digits, 6);
    FedNext(digits, 7);
    FedNext(digits, 8);
  }

  lemma ChecksumOfFour(a: bv8, b: bv8, c: bv8, d: bv8)
    ensures Checksum([a, b, c, d]) == FeedByte(FeedByte(FeedByte(FeedByte(0xFFFF, a), b), c), d)
  {
    hide FeedByte;
    assert [a, b, c, d][..3] == [a, b, c] && [a, b, c][..2] == [a, b] && [a, b][..1] == [a] && [a][..0] == [];
    assert Feed(0xFFFF, [a]) == FeedByte(Feed(0xFFFF, []), a);
    assert Feed(0xFFFF, [a, b]) == FeedByte(Feed(0xFFFF, [a]), b);
    assert Feed(0xFFFF, [a, b, c]) == FeedByte(Feed(0xFFFF, [a, b]), c);
  }

  // ---------------------------------------------------------------------------------------------
  // An odd number of flipped bits

  // Whether the low n bits of a word have an odd number of ones.
  predicate OddOnes(c: bv16, n: nat)
    decreases n
  {
    n > 0 && (Odd(c) != OddOnes(Half(c), n - 1))
  }

  lemma {:induction false} OddOnesXor(a: bv16, b: bv16, n: nat)
    ensures OddOnes(Xor(a, b), n) == (OddOnes(a, n) != OddOnes(b, n))
    decreases n
  {
    hide Xor, Odd, Half;
    if n > 0 {
      OddXor(a, b);
      HalfXor(a, b);
      OddOnesXor(Half(a), Half(b), n - 1);
    }
  }

  lemma {:induction false} TopBitClear(c: bv16, n: nat)
    requires n < 16 && Below(c, HighMask(n))
    ensures OddOnes(c, n + 1) == OddOnes(c, n)
    decreases n
  {
    hide Odd, Half, HighMask, Below;
    if n == 0 {
      NoneBelow(c);
    } else {
      HalfOfBelow(c, n - 1);
      TopBitClear(Half(c), n - 1);
    }
  }

  lemma NoneBelow(c: bv16)
    requires Below(c, HighMask(0))
    ensures !Odd(c)
  {
  }

  lemma HalfOfBelow(c: bv16, n: nat)
    requires n < 15 && Below(c, HighMask(n + 1))
    ensures Below(Half(c), HighMask(n))
  {
    match n { case 0 => case 1 => case 2 => case 3 => case 4 => case 5 => case 6 => case 7 =>
              case 8 => case 9 => case 10 => case 11 => case 12 => case 13 => case _ => }
  }

  lemma HalfFits(c: bv16)
    ensures Below(Half(c), HighMask(15))
  {
  }

  lemma ThreeOnes()
    ensures OddOnes(0xA001, 16)
  {
    assert OddOnes(0xa001, 16) == (Odd(0xa001) != OddOnes(Half(0xa001), 15)) && Half(0xa001) == 0x5000;
    assert OddOnes(0x5000, 15) == (Odd(0x5000) != OddOnes(Half(0x5000), 14)) && Half(0x5000) == 0x2800;
    assert OddOnes(0x2800, 14) == (Odd(0x2800) != OddOnes(Half(0x2800), 13)) && Half(0x2800) == 0x1400;
    assert OddOnes(0x1400, 13) == (Odd(0x1400) != OddOnes(Half(0x1400), 12)) && Half(0x1400) == 0xa00;
    assert OddOnes(0xa00, 12) == (Odd(0xa00) != OddOnes(Half(0xa00), 11)) && Half(0xa00) == 0x500;
    assert OddOnes(0x500, 11) == (Odd(0x500) != OddOnes(Half(0x500), 10)) && Half(0x500) == 0x280;
    assert OddOnes(0x280, 10) == (Odd(0x280) != OddOnes(Half(0x280), 9)) && Half(0x280) == 0x140;
    assert OddOnes(0x140, 9) == (Odd(0x140) != OddOnes(Half(0x140), 8)) && Half(0x140) == 0xa0;
    assert OddOnes(0xa0, 8) == (Odd(0xa0) != OddOnes(Half(0xa0), 7)) && Half(0xa0) == 0x50;
    assert OddOnes(0x50, 7) == (Odd(0x50) != OddOnes(Half(0x50), 6)) && Half(0x50) == 0x28;
    assert OddOnes(0x28, 6) == (Odd(0x28) != OddOnes(Half(0x28), 5)) && Half(0x28) == 0x14;
    assert OddOnes(0x14, 5) == (Odd(0x14) != OddOnes(Half(0x14), 4)) && Half(0x14) == 0xa;
    assert OddOnes(0xa, 4) == (Odd(0xa) != OddOnes(Half(0xa), 3)) && Half(0xa) == 0x5;
    assert OddOnes(0x5, 3) == (Odd(0x5) != OddOnes(Half(0x5), 2)) && Half(0x5) == 0x2;
    assert OddOnes(0x2, 2) == (Odd(0x2) != OddOnes(Half(0x2), 1)) && Half(0x2) == 0x1;
    assert OddOnes(0x1, 1) == (Odd(0x1) != OddOnes(Half(0x1), 0)) && Half(0x1) == 0x0;
  }

  predicate OddTrue(bits: seq<bool>) {
    bits != [] && (bits[0] != OddTrue(bits[1..]))
  }

  lemma StepKeepsParity(c: bv16)
    ensures OddOnes(Step(c), 16) == OddOnes(c, 16)
  {
    hide Xor, Odd, Half, Below;
    HalfFits(c);
    TopBitClear(Half(c), 15);
    ThreeOnes();
    OddOnesXor(Half(c), 0xA001, 16);
    hide HighMask;
    assert OddOnes(c, 16) == (Odd(c) != OddOnes(Half(c), 15));
  }

  lemma {:induction false} NoOnes(n: nat)
    ensures !OddOnes(0, n)
  {
    if n > 0 {
      NoOnes(n - 1);
    }
  }

  lemma ParityOfBit(c: bv16, bit: bool)
    ensures OddOnes(Xor(c, OneIf(bit)), 16) == (OddOnes(c, 16) != bit)
  {
    hide Xor;
    OddOnesXor(c, OneIf(bit), 16);
    NoOnes(16);
    NoOnes(15);
    assert OddOnes(1, 16) == (Odd(1) != OddOnes(Half(1), 15)) && Half(1) == 0;
  }

  lemma {:induction false} FeedParity(c: bv16, bits: seq<bool>)
    ensures OddOnes(FeedBits(c, bits), 16) == (OddOnes(c, 16) != OddTrue(bits))
    decreases |bits|
  {
    hide Step, Xor, OneIf, OddOnes;
    if bits != [] {
      ParityOfBit(c, bits[0]);
      StepKeepsParity(Xor(c, OneIf(bits[0])));
      FeedParity(Step(Xor(c, OneIf(bits[0]))), bits[1..]);
    }
  }

  // Two accepted frames of one length never differ in an odd number of bits, wherever those are.
  lemma OddErrorDetected(sent: seq<bv8>, received: seq<bv8>)
    requires Accepted(sent) && Accepted(received) && |sent| == |received|
    ensures !OddTrue(Differs(Bits(sent), Bits(received)))
  {
    hide Accepted, FeedBits, OddOnes, OddTrue, Differs;
    DifferenceRegister(sent, received);
    FeedParity(0, Differs(Bits(sent), Bits(received)));
    NoOnes(16);
  }

  // ---------------------------------------------------------------------------------------------
  // The loops

  // crc_calc. The register starts as 16 bits and takes in bytes, so 16 bits of the int it is kept in
  // are enough.
  method CrcCalc(data: array<bv8>, dataLen: nat) returns (crc: bv16)
    requires dataLen <= data.Length
    ensures crc == Checksum(data[..dataLen])
  {
    hide Odd, Half, Xor, Steps, Feed, Wide;
    crc := 0xFFFF;
    FeedNothing(data[..0]);
    for i := 0 to dataLen
      invariant crc == Feed(0xFFFF, data[..i])
    {
      FeedOne(data[..i + 1]);
      assert data[..i + 1][..i] == data[..i];
      crc := Xor(crc, Wide(data[i]));
      ghost var want := Steps(crc, 8);
      for j := 0 to 8
        invariant Steps(crc, 8 - j) == want
      {
        StepsOne(crc, 8 - j);
        if Odd(crc) {
          crc := Xor(Half(crc), 0xA001);
        } else {
          crc := Half(crc);
        }
      }
      StepsNone(crc);
    }
  }

  lemma FeedNothing(data: seq<bv8>)
    requires data == []
    ensures Feed(0xFFFF, data) == 0xFFFF
  {
  }

  lemma FeedOne(data: seq<bv8>)
    requires data != []
    ensures Feed(0xFFFF, data) == Steps(Xor(Feed(0xFFFF, data[..|data| - 1]), Wide(data[|data| - 1])), 8)
  {
  }

  lemma StepsOne(c: bv16, n: nat)
    requires n > 0
    ensures Steps(c, n) == Steps(Step(c), n - 1)
  {
  }

  lemma StepsNone(c: bv16)
    ensures Steps(c, 0) == c
  {
  }
}
