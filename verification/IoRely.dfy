/**
 What a rule pass does to the sixteen coils it reads: `io_rely_routine` and `io_rely_handle` of
 `main.c` over the rule engine, against a device that answers sections 6.1 and 6.11 of the MODBUS
 Application Protocol Specification V1.1b3 and a link that may lose any request or reply.
 */
module IoRely {
  import opened Coils
  import opened MaskRules
  import opened RuleSets

  datatype Fault = NoFault | RequestLost | ReplyLost

  // Coil k is bit k; `faults` says what becomes of the next exchanges, none after the last.
  datatype Device = Device(coils: bv16, faults: seq<Fault>)

  function Next(d: Device): Fault {
    if d.faults == [] then NoFault else d.faults[0]
  }

  function Later(d: Device): seq<Fault> {
    if d.faults == [] then [] else d.faults[1..]
  }

  // A request for coils 0 to 15 and its reply.
  function Read(d: Device): (bool, seq<bv8>, Device) {
    if Next(d) == NoFault then (true, [ByteOf(d.coils, 0), ByteOf(d.coils, 1)], d.(faults := Later(d)))
    else (false, [], d.(faults := Later(d)))
  }

  // A request to write coils 0 to 15. A lost reply leaves the coils written.
  function Write(d: Device, payload: seq<bv8>): (bool, Device)
    requires |payload| == 2
  {
    var written := WordOf(payload[0], payload[1]);
    match Next(d)
    case NoFault => (true, Device(written, Later(d)))
    case RequestLost => (false, d.(faults := Later(d)))
    case ReplyLost => (false, Device(written, Later(d)))
  }

  // The coils after one fired rule: its up bits set, then its down bits cleared.
  function Apply(c: bv16, rule: Content): bv16 {
    SetClear16(c, Low16(rule.omask.up), Low16(rule.omask.down))
  }

  // io_rely_handle as a callback: a lost message fails it.
  function Handle(rule: Content, d: Device): (int, Device) {
    var d1 := d.(faults := Later(d));
    if Next(d) != NoFault then (-1, d1)
    else match Next(d1)
      case NoFault => (0, Device(Apply(d.coils, rule), Later(d1)))
      case RequestLost => (-1, d1.(faults := Later(d1)))
      case ReplyLost => (-1, Device(Apply(d.coils, rule), Later(d1)))
  }

  // What becomes of the coils for each fate of the two exchanges: only a lost read or a lost write request
  // leaves them, and any loss fails the rule.
  lemma LossCases(rule: Content, c: bv16, first: Fault, second: Fault, later: seq<Fault>)
    ensures Handle(rule, Device(c, [])) == (0, Device(Apply(c, rule), []))
    ensures first != NoFault ==> Handle(rule, Device(c, [first] + later)) == (-1, Device(c, later))
    ensures Handle(rule, Device(c, [NoFault, second] + later)) == match second
      case NoFault => (0, Device(Apply(c, rule), later))
      case RequestLost => (-1, Device(c, later))
      case ReplyLost => (-1, Device(Apply(c, rule), later))
  {
    hide Apply;
    assert ([first] + later)[1..] == later && ([NoFault, second] + later)[1..] == [second] + later;
    assert ([second] + later)[1..] == later;
  }

  // The value of one coil after both loops of io_rely_handle.
  predicate Wanted(c: bv16, rule: Content, k: nat)
    requires k < 16
  {
    (Bit(ByteOf(c, k / 8), k % 8) || MaskBit(rule.omask.up, k)) && !MaskBit(rule.omask.down, k)
  }

  lemma WantedPacks(c: bv16, rule: Content, v: seq<bv8>)
    requires |v| >= 16 && forall k :: 0 <= k < 16 ==> (v[k] != 0 <==> Wanted(c, rule, k))
    ensures Packed(v, 2) == [ByteOf(Apply(c, rule), 0), ByteOf(Apply(c, rule), 1)]
  {
    hide Apply;
    WantedByte(c, rule, v, 0);
    WantedByte(c, rule, v, 1);
  }

  lemma WantedByte(c: bv16, rule: Content, v: seq<bv8>, i: nat)
    requires |v| >= 16 && forall k :: 0 <= k < 16 ==> (v[k] != 0 <==> Wanted(c, rule, k))
    requires i < 2
    ensures PackByte(v, 8 * i, 8) == ByteOf(Apply(c, rule), i)
  {
    hide Bit, ByteOf, PackByte, MaskBit, Low16, SetClear, SetClear16;
    forall j | 0 <= j < 8 ensures Bit(PackByte(v, 8 * i, 8), j) <==> Bit(ByteOf(Apply(c, rule), i), j) {
      PackByteBit(v, 8 * i, 8, j);
      MaskBitIsBit(rule.omask.up, i, j);
      MaskBitIsBit(rule.omask.down, i, j);
      ByteWise(c, Low16(rule.omask.up), Low16(rule.omask.down), i);
      BitWise(ByteOf(c, i), ByteOf(Low16(rule.omask.up), i), ByteOf(Low16(rule.omask.down), i), j);
      assert (8 * i + j) / 8 == i && (8 * i + j) % 8 == j;
      assert v[8 * i + j] != 0 <==> Wanted(c, rule, 8 * i + j);
    }
    SameBits(PackByte(v, 8 * i, 8), ByteOf(Apply(c, rule), i));
  }

  // Coil k of the reply with the up bit of the rule, as the first loop stores it.
  function Raised(reply: seq<bv8>, rule: Content, k: nat): bv8
    requires k < 8 * |reply| && k < 16
  {
    BitValue(reply[k / 8], k % 8) | MaskValue(rule.omask.up, k)
  }

  // The two loops of io_rely_handle over a reply of two bytes.
  method Combine(reply: seq<bv8>, rule: Content) returns (value: array<bv8>)
    requires |reply| == 2
    ensures fresh(value) && value.Length == 2000
    ensures forall k :: 0 <= k < 16 ==> value[k] == Raised(reply, rule, k) & MaskValue(!rule.omask.down, k)
  {
    hide *;
    value := new bv8[2000](_ => 0);
    for i := 0 to |reply|
      invariant forall k :: 0 <= k < 8 * i ==> value[k] == Raised(reply, rule, k)
    {
      for j := 0 to 8
        invariant forall k :: 0 <= k < 8 * i + j ==> value[k] == Raised(reply, rule, k)
      {
        RaisedAt(reply, rule, i, j);
        value[i * 8 + j] := BitValue(reply[i], j) | MaskValue(rule.omask.up, 8 * i + j);
      }
    }
    for i := 0 to |reply|
      invariant forall k :: 0 <= k < 8 * i ==> value[k] == Raised(reply, rule, k) & MaskValue(!rule.omask.down, k)
      invariant forall k :: 8 * i <= k < 16 ==> value[k] == Raised(reply, rule, k)
    {
      for j := 0 to 8
        invariant forall k :: 0 <= k < 8 * i + j ==> value[k] == Raised(reply, rule, k) & MaskValue(!rule.omask.down, k)
        invariant forall k :: 8 * i + j <= k < 16 ==> value[k] == Raised(reply, rule, k)
      {
        value[i * 8 + j] := value[i * 8 + j] & MaskValue(!rule.omask.down, 8 * i + j);
      }
    }
  }

  lemma RaisedAt(reply: seq<bv8>, rule: Content, i: nat, j: nat)
    requires |reply| == 2 && i < 2 && j < 8
    ensures Raised(reply, rule, 8 * i + j) == BitValue(reply[i], j) | MaskValue(rule.omask.up, 8 * i + j)
  {
    assert (8 * i + j) / 8 == i && (8 * i + j) % 8 == j;
  }

  lemma CombinedIsWanted(c: bv16, reply: seq<bv8>, rule: Content, k: nat)
    requires reply == [ByteOf(c, 0), ByteOf(c, 1)] && k < 16
    ensures Raised(reply, rule, k) & MaskValue(!rule.omask.down, k) != 0 <==> Wanted(c, rule, k)
  {
    hide Bit, MaskBit, ByteOf;
    InvertedBit(rule.omask.down, k);
    FlagValues(BitValue(reply[k / 8], k % 8), MaskValue(rule.omask.up, k), MaskValue(!rule.omask.down, k));
  }

  // io_rely_handle
  method IoRelyHandle(rule: Content, d: Device) returns (ret: int, d': Device)
    ensures (ret, d') == Handle(rule, d)
  {
    hide ByteOf, WordOf, Apply, Raised, MaskValue, Wanted, Packed, Low16, SetClear16;
    var (got, reply, d1) := Read(d);
    if !got {
      return -1, d1;
    }
    var value := Combine(reply, rule);
    forall k | 0 <= k < 16 ensures value[k] != 0 <==> Wanted(d.coils, rule, k) {
      CombinedIsWanted(d.coils, reply, rule, k);
    }
    WantedPacks(d.coils, rule, value[..]);
    WordOfBytes(Apply(d.coils, rule));
    var payload := Packed(value[..], Aligned8(16));
    var (put, d2) := Write(d1, payload);
    d' := d2;
    ret := if put then 0 else -1;
  }

  // ---------------------------------------------------------------------------------------------
  // The fired rules together

  function Ups(fired: seq<Content>): bv16 {
    if fired == [] then 0 else Or(Ups(fired[..|fired| - 1]), Low16(fired[|fired| - 1].omask.up))
  }

  function Downs(fired: seq<Content>): bv16 {
    if fired == [] then 0 else Or(Downs(fired[..|fired| - 1]), Low16(fired[|fired| - 1].omask.down))
  }

  // The coils after each rule's read-modify-write in turn.
  function ApplyAll(c: bv16, fired: seq<Content>): bv16 {
    if fired == [] then c else Apply(ApplyAll(c, fired[..|fired| - 1]), fired[|fired| - 1])
  }

  lemma {:induction false} UpAvoidsDowns(rule: Content, fired: seq<Content>)
    requires forall i :: 0 <= i < |fired| ==> !Contradicts(rule, fired[i])
    ensures Apart16(Low16(rule.omask.up), Downs(fired))
  {
    hide Low16, Apart16, Or;
    if fired == [] {
      SetClearNothing(Low16(rule.omask.up));
    } else {
      var n := |fired| - 1;
      UpAvoidsDowns(rule, fired[..n]);
      ContradictsLow(rule, fired[n]);
      ApartOr(Low16(rule.omask.up), Downs(fired[..n]), Low16(fired[n].omask.down));
    }
  }

  lemma ContradictsLow(a: Content, b: Content)
    requires !Contradicts(a, b)
    ensures Apart16(Low16(a.omask.up), Low16(b.omask.down))
  {
    LowApart(a.omask.up, b.omask.down);
  }

  // Rules that do not contradict each other act as one: all ups set, then all downs cleared.
  lemma {:induction false} ApplyAllIsUnion(c: bv16, fired: seq<Content>)
    requires Compatible(fired)
    ensures ApplyAll(c, fired) == SetClear16(c, Ups(fired), Downs(fired))
  {
    hide Low16, SetClear16, Contradicts, Apart16, Or;
    if fired == [] {
      SetClearNothing(c);
    } else {
      var n := |fired| - 1;
      ApplyAllIsUnion(c, fired[..n]);
      UpAvoidsDowns(fired[n], fired[..n]);
      SetClearTwice(c, Ups(fired[..n]), Downs(fired[..n]), Low16(fired[n].omask.up), Low16(fired[n].omask.down));
    }
  }

  // ---------------------------------------------------------------------------------------------
  // One pass against the device

  lemma {:induction false} CallsApplyAll(fired: seq<Content>, d: Device)
    requires d.faults == []
    ensures Calls(fired, Handle, d) == (SUCCESS, fired, Device(ApplyAll(d.coils, fired), []))
  {
    if fired != [] {
      var d1 := Device(Apply(d.coils, fired[0]), []);
      CallsApplyAll(fired[1..], d1);
      ApplyFirst(d.coils, fired);
      assert [fired[0]] + fired[1..] == fired;
    }
  }

  lemma {:induction false} ApplyFirst(c: bv16, fired: seq<Content>)
    requires fired != []
    ensures ApplyAll(c, fired) == ApplyAll(Apply(c, fired[0]), fired[1..])
  {
    hide Apply;
    var n := |fired| - 1;
    if n > 0 {
      ApplyFirst(c, fired[..n]);
      assert fired[..n][1..] == fired[1..][..n - 1];
    } else {
      assert fired[..0] == [] && fired[1..] == [];
    }
  }

  // Over a link that loses nothing, a pass takes the coils c to (c | U) & ~D, where U and D are the
  // unions of the up and down masks of the fired rules.
  lemma PassCoils(rules: seq<Content>, d: Device)
    requires d.faults == []
    ensures var fired := Greedy(rules, InputMask(d.coils), []);
      Pass(rules, InputMask(d.coils), [], Handle, d) ==
      Outcome(SUCCESS, fired, Device(SetClear16(d.coils, Ups(fired), Downs(fired)), []))
  {
    var mask := InputMask(d.coils);
    var fired := Greedy(rules, mask, []);
    hide InputMask, SetClear16, Low16;
    PassCallsGreedy(rules, mask, [], Handle, d);
    assert fired[0..] == fired && [] + fired == fired;
    CallsApplyAll(fired, d);
    GreedyCompatible(rules, mask, []);
    ApplyAllIsUnion(d.coils, fired);
  }

  lemma {:induction false} UpsAre(fired: seq<Content>, k: nat)
    requires k < 16
    ensures Coil(Ups(fired), k) <==> exists i :: 0 <= i < |fired| && MaskBit(fired[i].omask.up, k)
    ensures Coil(Downs(fired), k) <==> exists i :: 0 <= i < |fired| && MaskBit(fired[i].omask.down, k)
  {
    hide Coil, MaskBit, Or, Low16;
    if fired == [] {
      NoCoil(k);
    } else {
      var n := |fired| - 1;
      var last := fired[n];
      UpsAre(fired[..n], k);
      CoilOr(Ups(fired[..n]), Low16(last.omask.up), k);
      CoilOr(Downs(fired[..n]), Low16(last.omask.down), k);
      MaskCoil(last.omask.up, k);
      MaskCoil(last.omask.down, k);
      assert forall i :: 0 <= i < n ==> fired[..n][i] == fired[i];
      assert forall i :: 0 <= i < |fired| ==> i < n || fired[i] == last;
      if MaskBit(last.omask.up, k) {
        assert MaskBit(fired[n].omask.up, k);
      }
      if MaskBit(last.omask.down, k) {
        assert MaskBit(fired[n].omask.down, k);
      }
    }
  }

  lemma MaskCoil(x: bv64, k: nat)
    requires k < 16
    ensures Coil(Low16(x), k) <==> MaskBit(x, k)
  {
    MaskBitIsBit(x, k / 8, k % 8);
    hide Bit, ByteOf, Low16, MaskBit;
    assert 8 * (k / 8) + k % 8 == k;
  }

  // Coil by coil: after such a pass a coil is on exactly if it was on or a fired rule sets it, and no
  // fired rule clears it.
  lemma CoilsAfterPass(rules: seq<Content>, d: Device, k: nat)
    requires d.faults == [] && k < 16
    ensures var fired := Greedy(rules, InputMask(d.coils), []);
      Coil(Pass(rules, InputMask(d.coils), [], Handle, d).arg.coils, k) <==>
        && (Coil(d.coils, k) || exists i :: 0 <= i < |fired| && MaskBit(fired[i].omask.up, k))
        && !exists i :: 0 <= i < |fired| && MaskBit(fired[i].omask.down, k)
  {
    hide *;
    var fired := Greedy(rules, InputMask(d.coils), []);
    PassCoils(rules, d);
    UpsAre(fired, k);
    CoilSetClear(d.coils, Ups(fired), Downs(fired), k);
  }

  // A FUZZ rule matches the sixteen coils exactly if those it wants up are on and those it wants down
  // are off; one that wants an input above the sixteenth up never does.
  lemma FuzzMatchesCoils(c: bv16, rule: Content)
    requires rule.kind == FUZZ
    ensures Matches(rule, InputMask(c)) <==>
      && OnAll(c, Low16(rule.imask.up)) && Sixteen(rule.imask.up) && OffAll(c, Low16(rule.imask.down))
  {
    hide Matches, InputMask, Low16, OnAll, OffAll, Sixteen, FuzzSees;
    MatchesMeets(rule, InputMask(c));
    FuzzSeesCoils(c, rule.imask.up, rule.imask.down);
  }

  lemma FuzzSeesCoils(c: bv16, up: bv64, down: bv64)
    ensures FuzzSees(InputMask(c), up, down) <==> OnAll(c, Low16(up)) && Sixteen(up) && OffAll(c, Low16(down))
  {
    if FuzzSees(InputMask(c), up, down) {
      SeenOn(c, up);
      SeenOff(c, down);
    }
    if OnAll(c, Low16(up)) && Sixteen(up) && OffAll(c, Low16(down)) {
      OnSeen(c, up);
      OffSeen(c, down);
    }
  }

  // Whatever the link loses, the coils are those of an unbroken pass cut short: after all the rules
  // called back, or all but the last if its write never arrived.
  lemma {:induction false} CallsPrefix(fired: seq<Content>, d: Device)
    ensures CutShort(fired, d.coils, Calls(fired, Handle, d))
  {
    if fired != [] {
      var (ret, d1) := Handle(fired[0], d);
      CallsPrefix(fired[1..], d1);
      var (status, called, d') := Calls(fired[1..], Handle, d1);
      HandleStep(fired[0], d);
      if ret >= 0 {
        CutShortStep(fired, d.coils, d1.coils, (status, called, d'));
      } else {
        assert [fired[0]][..0] == [];
        assert CutShort(fired, d.coils, (ERR_CALLBACK, [fired[0]], d1)) by {
          ApplyFirst(d.coils, [fired[0]]);
          assert [fired[0]][1..] == [];
        }
      }
    }
  }

  ghost predicate CutShort(fired: seq<Content>, c: bv16, result: (int, seq<Content>, Device)) {
    var (status, called, d) := result;
    && called <= fired
    && (if status == SUCCESS then called == fired else status == ERR_CALLBACK && called != [])
    && (d.coils == ApplyAll(c, called) || (status != SUCCESS && d.coils == ApplyAll(c, called[..|called| - 1])))
  }

  lemma HandleStep(rule: Content, d: Device)
    ensures var (ret, d1) := Handle(rule, d);
      d1.coils == Apply(d.coils, rule) || (ret < 0 && d1.coils == d.coils)
  {
  }

  lemma CutShortStep(fired: seq<Content>, c: bv16, c1: bv16, rest: (int, seq<Content>, Device))
    requires fired != [] && c1 == Apply(c, fired[0]) && CutShort(fired[1..], c1, rest)
    ensures CutShort(fired, c, (rest.0, [fired[0]] + rest.1, rest.2))
  {
    hide Apply;
    var all := [fired[0]] + rest.1;
    assert all[1..] == rest.1;
    ApplyFirst(c, all);
    if rest.1 != [] {
      var cut := all[..|all| - 1];
      assert cut[1..] == rest.1[..|rest.1| - 1];
      ApplyFirst(c, cut);
    }
  }

  // ---------------------------------------------------------------------------------------------
  // The order of the fired rules does not matter

  lemma {:induction false} UpsWithout(s: seq<Content>, k: nat)
    requires k < |s|
    ensures Ups(s) == Or(Ups(s[..k] + s[k + 1..]), Low16(s[k].omask.up))
    ensures Downs(s) == Or(Downs(s[..k] + s[k + 1..]), Low16(s[k].omask.down))
  {
    hide Or, Low16;
    var n := |s| - 1;
    var t := s[..k] + s[k + 1..];
    if k < n {
      UpsWithout(s[..n], k);
      var t' := s[..n][..k] + s[..n][k + 1..];
      assert t[..|t| - 1] == t' && t[|t| - 1] == s[n];
      OrMoves(Ups(t'), Low16(s[k].omask.up), Low16(s[n].omask.up));
      OrMoves(Downs(t'), Low16(s[k].omask.down), Low16(s[n].omask.down));
    } else {
      assert t == s[..n];
    }
  }

  lemma TakeOut(s: seq<Content>, k: nat)
    requires k < |s|
    ensures multiset(s[..k] + s[k + 1..]) == multiset(s) - multiset{s[k]}
  {
    assert s == s[..k] + [s[k]] + s[k + 1..];
  }

  lemma {:induction false} UpsPermuted(s: seq<Content>, t: seq<Content>)
    requires multiset(s) == multiset(t)
    ensures Ups(s) == Ups(t) && Downs(s) == Downs(t)
    decreases |s|
  {
    hide Or, Low16;
    assert |s| == |multiset(s)| == |t|;
    if s != [] {
      var n := |s| - 1;
      assert s[n] in multiset(t);
      var k :| 0 <= k < |t| && t[k] == s[n];
      TakeOut(s, n);
      TakeOut(t, k);
      assert s[..n] + s[n + 1..] == s[..n];
      UpsPermuted(s[..n], t[..k] + t[k + 1..]);
      UpsWithout(t, k);
    }
  }

  // Any order of the fired rules writes the same coils.
  lemma FiredInAnyOrder(rules: seq<Content>, c: bv16, fired: seq<Content>)
    requires forall i :: 0 <= i < |rules| ==> Acceptable(rules[i])
    requires multiset(fired) == multiset(Greedy(rules, InputMask(c), []))
    ensures ApplyAll(c, fired) == ApplyAll(c, Greedy(rules, InputMask(c), []))
  {
    var greedy := Greedy(rules, InputMask(c), []);
    hide InputMask, Ups, Downs, ApplyAll;
    GreedyCompatible(rules, InputMask(c), []);
    GreedyOnlyRules(rules, InputMask(c), []);
    CompatiblePermuted(greedy, fired);
    ApplyAllIsUnion(c, greedy);
    ApplyAllIsUnion(c, fired);
    UpsPermuted(greedy, fired);
  }

  lemma CompatiblePermuted(s: seq<Content>, t: seq<Content>)
    requires multiset(s) == multiset(t) && Compatible(s)
    requires forall c :: c in s ==> Acceptable(c)
    ensures Compatible(t)
  {
    forall i, j | 0 <= i < j < |t| ensures !Contradicts(t[j], t[i]) {
      assert t[i] in multiset(s) && t[j] in multiset(s);
      ContradictsSymmetric(t[i], t[j]);
      if t[i] == t[j] {
        AcceptableAgrees(t[i]);
      }
    }
  }

  lemma ContradictsSymmetric(a: Content, b: Content)
    ensures Contradicts(a, b) <==> Contradicts(b, a)
  {
  }

  lemma AcceptableAgrees(a: Content)
    requires Acceptable(a)
    ensures !Contradicts(a, a)
  {
  }

  // ---------------------------------------------------------------------------------------------
  // Rules that do not read what any of them writes settle in one pass

  // No coil that r asks about is written by s.
  predicate Independent(r: Content, s: Content) {
    && Apart16(Low16(r.imask.up), Low16(s.omask.up)) && Apart16(Low16(r.imask.up), Low16(s.omask.down))
    && Apart16(Low16(r.imask.down), Low16(s.omask.up)) && Apart16(Low16(r.imask.down), Low16(s.omask.down))
  }

  // Coil by coil.
  lemma IndependentIs(r: Content, s: Content)
    ensures Independent(r, s) <==>
      forall k: nat :: k < 16 && (MaskBit(r.imask.up, k) || MaskBit(r.imask.down, k)) ==>
        !MaskBit(s.omask.up, k) && !MaskBit(s.omask.down, k)
  {
    ApartCoils(Low16(r.imask.up), Low16(s.omask.up));
    ApartCoils(Low16(r.imask.up), Low16(s.omask.down));
    ApartCoils(Low16(r.imask.down), Low16(s.omask.up));
    ApartCoils(Low16(r.imask.down), Low16(s.omask.down));
    hide Apart16, Low16, MaskBit, Coil;
    forall k: nat | k < 16
      ensures Coil(Low16(r.imask.up), k) <==> MaskBit(r.imask.up, k)
      ensures Coil(Low16(r.imask.down), k) <==> MaskBit(r.imask.down, k)
      ensures Coil(Low16(s.omask.up), k) <==> MaskBit(s.omask.up, k)
      ensures Coil(Low16(s.omask.down), k) <==> MaskBit(s.omask.down, k)
    {
      MaskCoil(r.imask.up, k);
      MaskCoil(r.imask.down, k);
      MaskCoil(s.omask.up, k);
      MaskCoil(s.omask.down, k);
    }
  }

  lemma {:induction false} AvoidsAll(x: bv16, fired: seq<Content>)
    requires forall i :: 0 <= i < |fired| ==>
      Apart16(x, Low16(fired[i].omask.up)) && Apart16(x, Low16(fired[i].omask.down))
    ensures Apart16(x, Ups(fired)) && Apart16(x, Downs(fired))
  {
    hide Apart16, Low16, Or;
    if fired == [] {
      SetClearNothing(x);
    } else {
      var n := |fired| - 1;
      AvoidsAll(x, fired[..n]);
      ApartOr(x, Ups(fired[..n]), Low16(fired[n].omask.up));
      ApartOr(x, Downs(fired[..n]), Low16(fired[n].omask.down));
    }
  }

  lemma SameMatch(r: Content, c: bv16, fired: seq<Content>)
    requires r.kind == FUZZ && Compatible(fired)
    requires forall i :: 0 <= i < |fired| ==> Independent(r, fired[i])
    ensures Matches(r, InputMask(ApplyAll(c, fired))) == Matches(r, InputMask(c))
  {
    var c' := ApplyAll(c, fired);
    hide Low16, Apart16, Met, SetClear16, InputMask, Ups, Downs, ApplyAll, Contradicts;
    ApplyAllIsUnion(c, fired);
    AvoidsAll(Low16(r.imask.up), fired);
    AvoidsAll(Low16(r.imask.down), fired);
    SameSeen(c, Ups(fired), Downs(fired), r.imask.up);
    SameSeen(c, Ups(fired), Downs(fired), r.imask.down);
    FuzzSeesBits(r, InputMask(c));
    FuzzSeesBits(r, InputMask(c'));
    hide UpBits, DownBits;
  }

  lemma FuzzSeesBits(r: Content, mask: bv64)
    requires r.kind == FUZZ
    ensures UpBits(r, mask) == SeenUp(mask, r.imask.up) && DownBits(r, mask) == SeenDown(mask, r.imask.down)
  {
    hide Masked, Inverted, SeenUp, SeenDown;
    SeenIs(mask, r.imask.up);
    SeenIs(mask, r.imask.down);
  }

  lemma SeenIs(mask: bv64, wanted: bv64)
    ensures SeenUp(mask, wanted) == Masked(mask, wanted) && SeenDown(mask, wanted) == Masked(Inverted(mask), wanted)
  {
  }

  lemma {:induction false} GreedyByMatches(rules: seq<Content>, m1: bv64, m2: bv64, fired: seq<Content>)
    requires forall i :: 0 <= i < |rules| ==> Matches(rules[i], m1) == Matches(rules[i], m2)
    ensures Greedy(rules, m1, fired) == Greedy(rules, m2, fired)
  {
    hide Matches, Clashes;
    if rules != [] {
      GreedyByMatches(rules[1..], m1, m2, fired);
      GreedyByMatches(rules[1..], m1, m2, fired + [rules[0]]);
    }
  }

  // A second pass on the coils the first one left fires the same rules and changes nothing.
  lemma SecondPassSettles(rules: seq<Content>, c: bv16)
    requires forall i :: 0 <= i < |rules| ==> rules[i].kind == FUZZ
    requires forall i, j :: 0 <= i < |rules| && 0 <= j < |rules| ==> Independent(rules[i], rules[j])
    ensures var fired := Greedy(rules, InputMask(c), []);
      var c' := ApplyAll(c, fired);
      Greedy(rules, InputMask(c'), []) == fired && ApplyAll(c', fired) == c'
  {
    var fired := Greedy(rules, InputMask(c), []);
    var c' := ApplyAll(c, fired);
    hide Independent, InputMask, ApplyAll, Matches, SetClear16, Ups, Downs;
    GreedyOnlyRules(rules, InputMask(c), []);
    GreedyCompatible(rules, InputMask(c), []);
    assert forall i :: 0 <= i < |fired| ==> fired[i] in rules;
    forall i | 0 <= i < |rules| ensures Matches(rules[i], InputMask(c')) == Matches(rules[i], InputMask(c)) {
      SameMatch(rules[i], c, fired);
    }
    GreedyByMatches(rules, InputMask(c'), InputMask(c), []);
    ApplyAllIsUnion(c, fired);
    ApplyAllIsUnion(c', fired);
    SetClearAgain(c, Ups(fired), Downs(fired));
  }

  // A rule that reads a coil it writes need not settle: one that clears the coil it fires on does not
  // fire again.
  lemma FeedbackUnsettles() returns (rule: Content, c: bv16)
    ensures rule.kind == FUZZ && Acceptable(rule) && !Independent(rule, rule)
    ensures Greedy([rule], InputMask(c), []) == [rule]
    ensures Greedy([rule], InputMask(ApplyAll(c, [rule])), []) == []
  {
    rule, c := Content(1, 1, FUZZ, IoStat(1, 0), IoStat(0, 1)), 1;
    assert ApplyAll(1, [rule][..0]) == 1;
    assert ApplyAll(1, [rule]) == 0;
    assert [rule][1..] == [] && [] + [rule] == [rule];
  }

  // ---------------------------------------------------------------------------------------------
  // The routine

  // One turn of io_rely_routine with control on.
  method RelyPass(rules: RuleSet, d: Device) returns (ran: bool, status: int, d': Device, ghost fired: seq<Content>)
    requires rules.Valid()
    modifies rules.nodes`effect
    ensures ran <==> Next(d) == NoFault
    ensures !ran ==> d' == d.(faults := Later(d))
    ensures ran && rules.ruleCnt == 0 ==> status == ERR_CAP_EMPTY && d' == d.(faults := Later(d))
    ensures ran && rules.ruleCnt > 0 && old(rules.Ordered()) ==>
      Outcome(status, fired, d') ==
      Pass(old(ContentsOf(rules.Order())), InputMask(d.coils), [], Handle, d.(faults := Later(d)))
    ensures rules.ruleCnt > 0 && old(rules.Ordered()) && d.faults == [] ==>
      && ran && status == SUCCESS && fired == Greedy(old(ContentsOf(rules.Order())), InputMask(d.coils), [])
      && d' == Device(SetClear16(d.coils, Ups(fired), Downs(fired)), [])
    ensures rules.Valid()
  {
    hide InputMask, ByteOf, Pass, ContentsOf, Handle, Greedy, SetClear16, Ups, Downs;
    hide RuleSet.Valid, RuleSet.Ordered, RuleSet.Order;
    var (got, reply, d1) := Read(d);
    ran, status, d', fired := got, 0, d1, [];
    if !got {
      return;
    }
    var imask: bv64 := 0;
    for i := 0 to |reply|
      invariant imask == Gathered(reply, i)
    {
      imask := OrMask(imask, Shifted(reply[i], i));
    }
    GatheredIsMask(d.coils);
    if d.faults == [] {
      PassCoils(ContentsOf(rules.Order()), d);
    }
    status, d', fired := rules.Match(imask, Handle, d1);
  }
}
