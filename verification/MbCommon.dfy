/**
 The buffer of `mb_common.h` and the in-place coding of `mb_common.c`. `data` holds `dataLen` written
 bytes, `offset` of them read; `operateDataLen` counts what was asked for, whether it fitted or not.
 */
module MbCommon {
  import opened Coils
  import opened Pdu

  // UINT16_T arithmetic
  function Wrap16(n: nat): (r: nat)
    ensures r < 0x10000 && (n < 0x10000 ==> r == n)
  {
    n % 0x10000
  }

  lemma WrapAdd(a: nat, b: nat)
    ensures Wrap16(Wrap16(a) + b) == Wrap16(a + b)
  {
  }

  function Zeros(n: nat): (s: seq<bv8>)
    ensures |s| == n && forall i :: 0 <= i < n ==> s[i] == 0
  {
    seq(n, i => 0)
  }

  class MbData {
    // MB_DATA_T; see Pdu.IsBigEndian for what the flag says
    const isBigEndian: bool
    var info: Info
    const maxDataLen: nat
    var operateDataLen: nat
    var dataLen: nat
    var offset: nat
    const data: array<bv8>

    ghost predicate Valid()
      reads this
    {
      && isBigEndian == IsBigEndian()
      && Sized(info)
      && data.Length == maxDataLen < 0x10000
      && dataLen <= maxDataLen
      && operateDataLen < 0x10000 && offset < 0x10000
    }

    // The bytes written or received so far.
    ghost function Bytes(): (s: seq<bv8>)
      requires dataLen <= data.Length
      reads this`dataLen, data
      ensures |s| == dataLen
    {
      data[..dataLen]
    }

    // mb_data_create
    constructor (maxDataSize: nat)
      requires maxDataSize < 0x10000
      ensures Valid() && fresh(data)
      ensures maxDataLen == maxDataSize && dataLen == operateDataLen == offset == 0
    {
      isBigEndian := IsBigEndian();
      info := Info(0, 0, 0, 0, 0, Zeros(MAX_VALUE));
      maxDataLen, operateDataLen, dataLen, offset := maxDataSize, 0, 0, 0;
      data := new bv8[maxDataSize](i => 0);
    }

    // mb_data_clear
    method Clear()
      requires Valid()
      modifies this`operateDataLen, this`dataLen, this`offset, data
      ensures forall i :: 0 <= i < data.Length ==> data[i] == 0
      ensures dataLen == operateDataLen == offset == 0
      ensures Valid()
    {
      forall i | 0 <= i < maxDataLen {
        data[i] := 0;
      }
      dataLen, operateDataLen, offset := 0, 0, 0;
    }

    // MBDATA_BYTE_SET
    method ByteSet(b: bv8)
      requires Valid()
      modifies this`operateDataLen, this`dataLen, data
      ensures dataLen <= maxDataLen && Bytes() == Store(old(Bytes()), maxDataLen, [b])
      ensures operateDataLen == Wrap16(old(operateDataLen) + 1)
      ensures Valid()
    {
      operateDataLen := Wrap16(operateDataLen + 1);
      if dataLen + 1 <= maxDataLen {
        data[dataLen] := b;
        dataLen := dataLen + 1;
      }
    }

    // MBDATA_WORD_SET
    method WordSet(w: bv16)
      requires Valid()
      modifies this`operateDataLen, this`dataLen, data
      ensures dataLen <= maxDataLen && Bytes() == Store(old(Bytes()), maxDataLen, Stored(w))
      ensures operateDataLen == Wrap16(old(operateDataLen) + 2)
      ensures Valid()
    {
      hide Low, High, Wrap16;
      operateDataLen := Wrap16(operateDataLen + 2);
      if dataLen + 2 <= maxDataLen {
        data[dataLen], data[dataLen + 1] := Stored(w)[0], Stored(w)[1];
        dataLen := dataLen + 2;
      }
    }

    // MBDATA_BYTE_GET, which leaves its target as it is when the bytes have run out
    method ByteGet(stale: bv8) returns (b: bv8)
      requires Valid()
      modifies this`operateDataLen, this`offset
      ensures b == ByteAt(Bytes(), old(offset), stale)
      ensures offset == Past(Bytes(), old(offset), 1)
      ensures operateDataLen == Wrap16(old(operateDataLen) + 1)
      ensures Valid()
    {
      b := stale;
      operateDataLen := Wrap16(operateDataLen + 1);
      if offset + 1 <= dataLen {
        b := data[offset];
        offset := offset + 1;
      }
    }

    // MBDATA_WORD_GET
    method WordGet(stale: bv16) returns (w: bv16)
      requires Valid()
      modifies this`operateDataLen, this`offset
      ensures w == WordAt(Bytes(), old(offset), stale)
      ensures offset == Past(Bytes(), old(offset), 2)
      ensures operateDataLen == Wrap16(old(operateDataLen) + 2)
      ensures Valid()
    {
      hide WordOf, Wrap16;
      w := stale;
      operateDataLen := Wrap16(operateDataLen + 2);
      if offset + 2 <= dataLen {
        w := WordOf(data[offset], data[offset + 1]);
        offset := offset + 2;
      }
    }

    // What the channel delivers: com_recv and tcp_recv read up to the buffer's size into a cleared buffer.
    method Receive(received: seq<bv8>)
      requires Valid() && |received| <= maxDataLen
      modifies this`operateDataLen, this`dataLen, this`offset, data
      ensures dataLen <= data.Length && Bytes() == received && operateDataLen == offset == 0
      ensures data[..] == received + Zeros(maxDataLen - |received|)
      ensures Valid()
    {
      Clear();
      forall i | 0 <= i < |received| {
        data[i] := received[i];
      }
      dataLen := |received|;
    }

    // -------------------------------------------------------------------------------------------
    // mb_data_encap

    // The puts since `start` have been stored, as far as they fitted, and counted.
    ghost predicate Wrote(log: Log)
      reads this, data
    {
      && Valid()
      && Bytes() == StoreAll(log.start, maxDataLen, log.puts)
      && operateDataLen == Wrap16(log.was + |Flatten(log.puts)|)
    }

    ghost method StartLog() returns (log: Log)
      requires Valid()
      ensures Wrote(log) && log == Log(Bytes(), operateDataLen, [])
    {
      log := Log(Bytes(), operateDataLen, []);
    }

    method PutByte(b: bv8, ghost log: Log) returns (ghost next: Log)
      requires Wrote(log)
      modifies this`operateDataLen, this`dataLen, data
      ensures Wrote(next) && next == log.(puts := log.puts + [[b]])
    {
      hide Valid, Wrap16, Store, StoreAll, Flatten;
      StepLog(log, maxDataLen, [b]);
      ByteSet(b);
      next := log.(puts := log.puts + [[b]]);
    }

    method PutWord(w: bv16, ghost log: Log) returns (ghost next: Log)
      requires Wrote(log)
      modifies this`operateDataLen, this`dataLen, data
      ensures Wrote(next) && next == log.(puts := log.puts + [Stored(w)])
    {
      hide Valid, Wrap16, Store, StoreAll, Flatten, Low, High;
      StepLog(log, maxDataLen, Stored(w));
      WordSet(w);
      next := log.(puts := log.puts + [Stored(w)]);
    }

    // A word that is swapped first, if the host needs it.
    method PutSwapped(w: bv16, ghost log: Log) returns (ghost next: Log)
      requires Wrote(log)
      modifies this`operateDataLen, this`dataLen, data
      ensures Wrote(next) && next == log.(puts := log.puts + [OnWire(w)])
    {
      SwapStored(w);
      WroteFacts(log);
      ValidFacts();
      hide *;
      var word := w;
      if isBigEndian {
        word := Swap(word);
      }
      next := PutWord(word, log);
    }

    method PutCoils(value: seq<bv8>, nByte: bv8, ghost log: Log) returns (ghost next: Log)
      requires Wrote(log) && |value| == MAX_VALUE && 8 * Size(nByte) <= MAX_VALUE
      modifies this`operateDataLen, this`dataLen, data
      ensures Wrote(next) && next == log.(puts := log.puts + Singles(Packed(value, Size(nByte))))
    {
      next := log;
      NoSingles(log.puts, value);
      hide *;
      var i := 0;
      while i < Size(nByte) && i < |value|
        invariant 0 <= i <= Size(nByte) && 8 * Size(nByte) <= |value|
        invariant Wrote(next) && next == log.(puts := log.puts + Singles(Packed(value, i)))
      {
        var byte := 0;
        PackNone(value, 8 * i);
        for j := 0 to 8
          invariant byte == PackByte(value, 8 * i, j) && Wrote(next)
        {
          PackMore(value, 8 * i, j);
          byte := OrByte(byte, Flag(value[i * 8 + j], j));
        }
        PackedLast(log.puts, value, i);
        next := PutByte(byte, next);
        i := i + 1;
      }
    }

    method PutValues(value: seq<bv8>, nByte: bv8, ghost log: Log) returns (ghost next: Log)
      requires Wrote(log) && |value| == MAX_VALUE
      modifies this`operateDataLen, this`dataLen, data
      ensures Wrote(next) && next == log.(puts := log.puts + Singles(value[..Size(nByte)]))
    {
      next := log;
      NoSingles(log.puts, value);
      MaxValue();
      hide *;
      var i := 0;
      while i < Size(nByte) && i < |value|
        invariant 0 <= i <= Size(nByte) <= |value|
        invariant Wrote(next) && next == log.(puts := log.puts + Singles(value[..i]))
      {
        ValuesLast(log.puts, value, i);
        next := PutByte(value[i], next);
        i := i + 1;
      }
    }

    lemma ValidFacts()
      requires Valid()
      ensures dataLen <= data.Length == maxDataLen && operateDataLen < 0x10000 && offset < 0x10000
      ensures |info.value| == MAX_VALUE && Sized(info) && isBigEndian
      ensures Bytes() == data[..dataLen]
    {
      SwapNeeded();
    }

    lemma WroteFacts(log: Log)
      requires Wrote(log)
      ensures Valid() && dataLen <= data.Length == maxDataLen
      ensures Bytes() == StoreAll(log.start, maxDataLen, log.puts)
      ensures operateDataLen == Wrap16(log.was + |Flatten(log.puts)|)
    {
    }

    // The statements of mb_data_encap; it works on a copy of the fields.
    method EncapPuts() returns (ghost log: Log)
      requires Valid() && Readable(info)
      modifies this`operateDataLen, this`dataLen, data
      ensures Wrote(log) && log == Log(old(Bytes()), old(operateDataLen), Puts(info))
    {
      PutsCases(info);
      ValidFacts();
      MaxValue();
      hide *;
      var mbInfo := info;
      log := StartLog();
      log := PutByte(mbInfo.code, log);
      log := PutSwapped(mbInfo.reg, log);
      ghost var head := log.puts;
      assert head == [[mbInfo.code], OnWire(mbInfo.reg)];
      match KindOf(mbInfo.code) {
        case ReadBits =>
          log := PutSwapped(mbInfo.nReg, log);
        case ReadWords =>
          log := PutSwapped(mbInfo.nReg, log);
        case WriteOne =>
          log := PutOne(mbInfo.value, log);
        case WriteCoils =>
          log := PutSwapped(mbInfo.nReg, log);
          CoilCount(mbInfo.nReg);
          mbInfo := mbInfo.(nByte := CountOf(Aligned8(Count(mbInfo.nReg))));
          log := PutByte(mbInfo.nByte, log);
          log := PutCoils(mbInfo.value, mbInfo.nByte, log);
          JoinPuts(head, OnWire(mbInfo.nReg), [mbInfo.nByte], Singles(Packed(mbInfo.value, Size(mbInfo.nByte))));
        case WriteWords =>
          log := PutSwapped(mbInfo.nReg, log);
          RegisterCount(mbInfo.nReg);
          mbInfo := mbInfo.(nByte := CountOf(Count(mbInfo.nReg) * 2));
          log := PutByte(mbInfo.nByte, log);
          log := PutValues(mbInfo.value, mbInfo.nByte, log);
          JoinPuts(head, OnWire(mbInfo.nReg), [mbInfo.nByte], Singles(mbInfo.value[..Size(mbInfo.nByte)]));
        case Unknown =>
      }
    }

    // Functions 5 and 6 send their value as it lies in memory.
    method PutOne(value: seq<bv8>, ghost log: Log) returns (ghost next: Log)
      requires Wrote(log) && |value| == MAX_VALUE
      modifies this`operateDataLen, this`dataLen, data
      ensures Wrote(next) && next == log.(puts := log.puts + [value[..2]])
    {
      StoredWord(value[0], value[1]);
      assert value[..2] == [value[0], value[1]];
      WroteFacts(log);
      ValidFacts();
      MaxValue();
      hide *;
      var word := WordOf(value[0], value[1]);
      if !isBigEndian {
        word := Swap(word);
      }
      next := PutWord(word, log);
    }

    // What is written is the request put by put, with the puts that do not fit left out; so it is the
    // request exactly if the written length says so.
    method Encap()
      requires Valid() && Readable(info)
      modifies this`operateDataLen, this`dataLen, data
      ensures dataLen <= maxDataLen == data.Length && Bytes() == StoreAll(old(Bytes()), maxDataLen, Puts(info))
      ensures operateDataLen == Wrap16(old(operateDataLen) + |Encoded(info)|)
      ensures dataLen == old(dataLen) + |Encoded(info)| <==> old(dataLen) + |Encoded(info)| <= maxDataLen
      ensures dataLen == old(dataLen) + |Encoded(info)| ==> Bytes() == old(Bytes()) + Encoded(info)
      ensures dataLen <= old(dataLen) + |Encoded(info)| && old(Bytes()) <= Bytes()
      ensures Valid()
    {
      ValidFacts();
      hide *;
      ghost var log := EncapPuts();
      WroteFacts(log);
      PutsAreEncoded(info);
      StoredWhole(old(Bytes()), maxDataLen, Puts(info));
    }

    // -------------------------------------------------------------------------------------------
    // mb_data_decap

    method GetValue(i: nat)
      requires Valid() && i < MAX_VALUE
      modifies this`info, this`operateDataLen, this`offset
      ensures info == old(info).(value := old(info).value[i := ByteAt(old(Bytes()), old(offset), old(info).value[i])])
      ensures offset == Past(old(Bytes()), old(offset), 1)
      ensures operateDataLen == Wrap16(old(operateDataLen) + 1)
      ensures Valid()
    {
      hide ByteAt, Past, Wrap16;
      var b := ByteGet(info.value[i]);
      info := info.(value := info.value[i := b]);
    }

    // A word is stored over two values; if it is missing they stay.
    method GetValues(i: nat)
      requires Valid() && i + 1 < MAX_VALUE
      modifies this`info, this`operateDataLen, this`offset
      ensures var w := WordAt(old(Bytes()), old(offset), WordOf(old(info).value[i], old(info).value[i + 1]));
        info == old(info).(value := old(info).value[i := Low(w)][i + 1 := High(w)])
      ensures offset == Past(old(Bytes()), old(offset), 2)
      ensures operateDataLen == Wrap16(old(operateDataLen) + 2)
      ensures Valid()
    {
      hide WordAt, WordOf, Low, High, Past, Wrap16;
      var w := WordGet(WordOf(info.value[i], info.value[i + 1]));
      info := info.(value := info.value[i := Low(w)][i + 1 := High(w)]);
    }

    // How far a value loop has come since the fields were info0.
    ghost predicate Loading(bytes: seq<bv8>, info0: Info, at: nat, was: nat, i: nat, words: bool)
      reads this, data
    {
      && Valid() && dataLen <= data.Length && Bytes() == bytes
      && info.nByte == info0.nByte && |info0.value| == MAX_VALUE
      && Loaded(info, offset, operateDataLen, bytes, info0, at, was, i, words)
    }

    lemma LoadingIs(bytes: seq<bv8>, info0: Info, at: nat, was: nat, i: nat, words: bool)
      ensures Loading(bytes, info0, at, was, i, words) <==>
        && Valid() && dataLen <= data.Length && Bytes() == bytes
        && info.nByte == info0.nByte && |info0.value| == MAX_VALUE
        && Loaded(info, offset, operateDataLen, bytes, info0, at, was, i, words)
    {
    }

    // The value loop of functions 1 and 2.
    method GetBytes()
      requires Valid()
      modifies this`info, this`operateDataLen, this`offset
      ensures Loaded(info, offset, operateDataLen, old(Bytes()), old(info), old(offset), old(operateDataLen),
                     Size(old(info).nByte), false)
      ensures Valid()
    {
      ValidFacts();
      ghost var bytes, info0, at, was := Bytes(), info, offset, operateDataLen;
      LoadedNone(bytes, info, at, was, false);
      LoadingIs(bytes, info0, at, was, 0, false);
      hide *;
      var i := 0;
      while i < Size(info.nByte)
        invariant 0 <= i <= Size(info0.nByte) && info.nByte == info0.nByte
        invariant Loading(bytes, info0, at, was, i, false)
      {
        GetByteStep(i, bytes, info0, at, was);
        i := i + 1;
      }
      LoadingIs(bytes, info0, at, was, i, false);
    }

    // One turn of it.
    method GetByteStep(i: nat, ghost bytes: seq<bv8>, ghost info0: Info, ghost at: nat, ghost was: nat)
      requires Loading(bytes, info0, at, was, i, false) && i < Size(info.nByte)
      modifies this`info, this`operateDataLen, this`offset
      ensures Loading(bytes, info0, at, was, i + 1, false) && info.nByte == old(info).nByte
    {
      hide *;
      LoadingIs(bytes, info0, at, was, i, false);
      ValidFacts();
      MaxValue();
      LoadByte(info, offset, operateDataLen, bytes, info0, at, was, i);
      GetValue(i);
      LoadingIs(bytes, info0, at, was, i + 1, false);
    }

    // The value loop of functions 3 and 4.
    method GetWords()
      requires Valid()
      modifies this`info, this`operateDataLen, this`offset
      ensures Loaded(info, offset, operateDataLen, old(Bytes()), old(info), old(offset), old(operateDataLen),
                     RoundedUp(Size(old(info).nByte)), true)
      ensures Valid()
    {
      ValidFacts();
      ghost var bytes, info0, at, was := Bytes(), info, offset, operateDataLen;
      LoadedNone(bytes, info, at, was, true);
      LoadingIs(bytes, info0, at, was, 0, true);
      hide *;
      var i := 0;
      while i < Size(info.nByte)
        invariant 0 <= i <= RoundedUp(Size(info0.nByte)) && Paired(i) && info.nByte == info0.nByte
        invariant Loading(bytes, info0, at, was, i, true)
      {
        NextPair(i, Size(info.nByte));
        GetWordStep(i, bytes, info0, at, was);
        i := i + 2;
      }
      LastPair(i, Size(info.nByte));
      LoadingIs(bytes, info0, at, was, i, true);
    }

    // One turn of it.
    method GetWordStep(i: nat, ghost bytes: seq<bv8>, ghost info0: Info, ghost at: nat, ghost was: nat)
      requires Loading(bytes, info0, at, was, i, true) && Paired(i) && i < Size(info.nByte)
      modifies this`info, this`operateDataLen, this`offset
      ensures Loading(bytes, info0, at, was, i + 2, true) && info.nByte == old(info).nByte
    {
      hide *;
      LoadingIs(bytes, info0, at, was, i, true);
      ValidFacts();
      MaxValue();
      LoadWord(info, offset, operateDataLen, bytes, info0, at, was, i);
      GetValues(i);
      LoadingIs(bytes, info0, at, was, i + 2, true);
    }

    method GetCode()
      requires Valid()
      modifies this`info, this`operateDataLen, this`offset
      ensures info == old(info).(code := ByteAt(old(Bytes()), old(offset), old(info).code))
      ensures offset == Past(old(Bytes()), old(offset), 1)
      ensures operateDataLen == Wrap16(old(operateDataLen) + 1)
      ensures Valid()
    {
      hide ByteAt, Past, Wrap16;
      var b := ByteGet(info.code);
      info := info.(code := b);
    }

    method GetErr()
      requires Valid()
      modifies this`info, this`operateDataLen, this`offset
      ensures info == old(info).(err := ByteAt(old(Bytes()), old(offset), old(info).err))
      ensures offset == Past(old(Bytes()), old(offset), 1)
      ensures operateDataLen == Wrap16(old(operateDataLen) + 1)
      ensures Valid()
    {
      hide ByteAt, Past, Wrap16;
      var b := ByteGet(info.err);
      info := info.(err := b);
    }

    method GetCount()
      requires Valid()
      modifies this`info, this`operateDataLen, this`offset
      ensures info == old(info).(nByte := ByteAt(old(Bytes()), old(offset), old(info).nByte))
      ensures offset == Past(old(Bytes()), old(offset), 1)
      ensures operateDataLen == Wrap16(old(operateDataLen) + 1)
      ensures Valid()
    {
      hide ByteAt, Past, Wrap16;
      var b := ByteGet(info.nByte);
      info := info.(nByte := b);
    }

    method DecapPayload(words: bool)
      requires Valid()
      modifies this`info, this`operateDataLen, this`offset
      ensures Follows(Payload(old(Bytes()), old(offset), old(info), words), old(operateDataLen), 1)
      ensures Valid()
    {
      ghost var bytes, at, stale, was := Bytes(), offset, info, operateDataLen;
      ValidFacts();
      hide *;
      GetCount();
      ValidFacts();
      ghost var n := Size(info.nByte);
      if words {
        GetWords();
      } else {
        GetBytes();
      }
      PayloadLoaded(bytes, at, stale, words, info, offset, operateDataLen, was);
      FollowsFacts(Payload(bytes, at, stale, words), was, 1);
    }

    method DecapCounted()
      requires Valid()
      modifies this`info, this`operateDataLen, this`offset
      ensures Follows(Counted(old(Bytes()), old(offset), old(info)), old(operateDataLen), 1)
      ensures Valid()
    {
      SwapNeeded();
      ghost var was := operateDataLen;
      WrapAdd(was + 2, 2);
      hide Wrap16, WordAt, Past, Swap, IsBigEndian;
      var reg := WordGet(info.reg);
      info := info.(reg := reg);
      if isBigEndian {
        info := info.(reg := Swap(info.reg));
      }
      var nReg := WordGet(info.nReg);
      info := info.(nReg := nReg);
      if isBigEndian {
        info := info.(nReg := Swap(info.nReg));
      }
    }

    method DecapOne()
      requires Valid()
      modifies this`info, this`operateDataLen, this`offset
      ensures Follows(One(old(Bytes()), old(offset), old(info)), old(operateDataLen), 1)
      ensures Valid()
    {
      SwapNeeded();
      ghost var was := operateDataLen;
      WrapAdd(was + 2, 1);
      WrapAdd(was + 3, 1);
      hide Wrap16, WordAt, ByteAt, Past, Swap, IsBigEndian;
      var reg := WordGet(info.reg);
      info := info.(reg := reg);
      if isBigEndian {
        info := info.(reg := Swap(info.reg));
      }
      var first := ByteGet(info.value[0]);
      info := info.(value := info.value[0 := first]);
      var second := ByteGet(info.value[1]);
      info := info.(value := info.value[1 := second]);
    }

    // The fields and the offset are those of a decoding, and `before` bytes of it had been asked for.
    ghost predicate Follows(d: Decoding, was: nat, before: nat)
      reads this`info, this`offset, this`operateDataLen
    {
      info == d.info && offset == d.offset && before <= d.wanted && operateDataLen == Wrap16(was + (d.wanted - before))
    }

    lemma FollowsFacts(d: Decoding, was: nat, before: nat)
      ensures Follows(d, was, before) <==>
        && info == d.info && offset == d.offset && before <= d.wanted
        && operateDataLen == Wrap16(was + (d.wanted - before))
    {
    }

    // For any bytes and any stale fields.
    method Decap()
      requires Valid()
      modifies this`info, this`operateDataLen, this`offset
      ensures Follows(Decoded(old(Bytes()), old(offset), old(info)), old(operateDataLen), 0)
      ensures Valid()
    {
      ValidFacts();
      ghost var was, d := operateDataLen, Decoded(Bytes(), offset, info);
      DecodedCases(Bytes(), offset, info);
      hide Valid, Sized, Decoded, Wrap16, ByteAt, Past, KindOf, IsError, Payload, Counted, One;
      GetCode();
      ValidFacts();
      if IsError(info.code) {
        WrapAdd(was + 1, 1);
        GetErr();
        return;
      }
      WrapAdd(was + 1, d.wanted - 1);
      match KindOf(info.code) {
        case ReadBits => DecapPayload(false);
        case ReadWords => DecapPayload(true);
        case WriteOne => DecapOne();
        case WriteCoils => DecapCounted();
        case WriteWords => DecapCounted();
        case Unknown =>
      }
    }
  }

  // The first n value bytes have been asked for, and loaded as far as they are there.
  ghost predicate Loaded(info: Info, offset: nat, count: nat, bytes: seq<bv8>, info0: Info, at: nat, was: nat,
                         n: nat, words: bool)
  {
    var t := Taken(bytes, at, n, words);
    && t <= |info0.value|
    && info == info0.(value := Overwritten(info0.value, bytes, at, t))
    && offset == at + t && count == Wrap16(was + n)
  }

  // A count and then its values loaded is a payload decoded.
  lemma PayloadLoaded(bytes: seq<bv8>, at: nat, stale: Info, words: bool, info: Info, offset: nat, count: nat, was: nat)
    requires Sized(stale)
    requires var n := ByteAt(bytes, at, stale.nByte);
      Loaded(info, offset, count, bytes, stale.(nByte := n), Past(bytes, at, 1), Wrap16(was + 1),
             if words then RoundedUp(Size(n)) else Size(n), words)
    ensures var d := Payload(bytes, at, stale, words);
      info == d.info && offset == d.offset && 1 <= d.wanted && count == Wrap16(was + (d.wanted - 1))
  {
    WrapAdd(was + 1, PayloadSize(ByteAt(bytes, at, stale.nByte), words));
    hide Wrap16, ByteAt, Past, Taken, Overwritten, RoundedUp, Size;
  }

  lemma LoadedNone(bytes: seq<bv8>, info: Info, at: nat, was: nat, words: bool)
    requires was < 0x10000
    ensures Paired(0) && Loaded(info, at, was, bytes, info, at, was, 0, words)
  {
  }

  lemma LoadByte(info: Info, offset: nat, count: nat, bytes: seq<bv8>, info0: Info, at: nat, was: nat, i: nat)
    requires Loaded(info, offset, count, bytes, info0, at, was, i, false)
    requires |info0.value| == MAX_VALUE && i < 256
    ensures Sized(info) && info.nByte == info0.nByte
    ensures Loaded(info.(value := info.value[i := ByteAt(bytes, offset, info.value[i])]), Past(bytes, offset, 1),
                   Wrap16(count + 1), bytes, info0, at, was, i + 1, false)
  {
    WrapAdd(was + i, 1);
    hide Wrap16, Overwritten;
    assert i < |info.value|;
    var b := ByteAt(bytes, offset, info.value[i]);
    if at + i < |bytes| {
      OverwriteOne(info0.value, bytes, at, i);
    } else {
      assert info.value[i := b] == info.value;
    }
  }

  lemma NextPair(i: nat, n: nat)
    requires Paired(i) && i < n
    ensures i + 2 <= RoundedUp(n) && Paired(i + 2)
  {
  }

  lemma LastPair(i: nat, n: nat)
    requires Paired(i) && n <= i <= RoundedUp(n)
    ensures i == RoundedUp(n)
  {
  }

  // Whether the next word is there.
  lemma TakenPair(bytes: seq<bv8>, at: nat, i: nat)
    requires Paired(i)
    ensures at + i + 1 < |bytes| ==> Taken(bytes, at, i, true) == i && Taken(bytes, at, i + 2, true) == i + 2
    ensures |bytes| <= at + i + 1 ==> var t := Taken(bytes, at, i, true);
      Taken(bytes, at, i + 2, true) == t && |bytes| < at + t + 2
  {
  }

  lemma LoadWord(info: Info, offset: nat, count: nat, bytes: seq<bv8>, info0: Info, at: nat, was: nat, i: nat)
    requires Loaded(info, offset, count, bytes, info0, at, was, i, true)
    requires |info0.value| == MAX_VALUE && i < 256 && Paired(i)
    ensures Sized(info) && info.nByte == info0.nByte && i + 1 < |info.value|
    ensures var w := WordAt(bytes, offset, WordOf(info.value[i], info.value[i + 1]));
      Loaded(info.(value := info.value[i := Low(w)][i + 1 := High(w)]), Past(bytes, offset, 2),
             Wrap16(count + 2), bytes, info0, at, was, i + 2, true)
  {
    WrapAdd(was + i, 2);
    TakenPair(bytes, at, i);
    LoadPair(info.value, bytes, at, i, info0.value);
    hide Wrap16, WordOf, WordAt, Low, High, Taken, Paired, Overwritten;
  }

  lemma LoadPair(value: seq<bv8>, bytes: seq<bv8>, at: nat, i: nat, value0: seq<bv8>)
    requires i + 2 <= |value0| && Paired(i)
    requires value == Overwritten(value0, bytes, at, Taken(bytes, at, i, true))
    ensures var w := WordAt(bytes, at + Taken(bytes, at, i, true), WordOf(value[i], value[i + 1]));
      value[i := Low(w)][i + 1 := High(w)] == Overwritten(value0, bytes, at, Taken(bytes, at, i + 2, true))
  {
    TakenPair(bytes, at, i);
    if at + i + 1 < |bytes| {
      WordHalves(bytes[at + i], bytes[at + i + 1]);
      OverwriteTwo(value0, bytes, at, i);
    } else {
      WordHalves(value[i], value[i + 1]);
      SameValues(value, i);
    }
    hide WordOf, Low, High, Taken, Paired, Overwritten;
  }

  lemma WordHalves(lo: bv8, hi: bv8)
    ensures Low(WordOf(lo, hi)) == lo && High(WordOf(lo, hi)) == hi
  {
    StoredWord(lo, hi);
    assert Stored(WordOf(lo, hi))[0] == lo && Stored(WordOf(lo, hi))[1] == hi;
  }

  lemma SameValues(value: seq<bv8>, i: nat)
    requires i + 2 <= |value|
    ensures value[i := value[i]][i + 1 := value[i + 1]] == value
  {
  }

  lemma OverwriteOne(value: seq<bv8>, bytes: seq<bv8>, at: nat, i: nat)
    requires i < |value| && at + i < |bytes|
    ensures Overwritten(value, bytes, at, i + 1) == Overwritten(value, bytes, at, i)[i := bytes[at + i]]
  {
    OverwrittenAt(value, bytes, at, i);
    OverwrittenAt(value, bytes, at, i + 1);
    hide Overwritten;
  }

  lemma OverwriteTwo(value: seq<bv8>, bytes: seq<bv8>, at: nat, i: nat)
    requires i + 2 <= |value| && at + i + 2 <= |bytes|
    ensures Overwritten(value, bytes, at, i + 2) ==
            Overwritten(value, bytes, at, i)[i := bytes[at + i]][i + 1 := bytes[at + i + 1]]
  {
    OverwriteOne(value, bytes, at, i);
    OverwriteOne(value, bytes, at, i + 1);
    hide Overwritten;
  }

  // A request while it is being written: what was there before, and the puts since.
  datatype Log = Log(start: seq<bv8>, was: nat, puts: seq<seq<bv8>>)

  lemma StepLog(log: Log, room: nat, p: seq<bv8>)
    ensures StoreAll(log.start, room, log.puts + [p]) == Store(StoreAll(log.start, room, log.puts), room, p)
    ensures Wrap16(Wrap16(log.was + |Flatten(log.puts)|) + |p|) == Wrap16(log.was + |Flatten(log.puts + [p])|)
  {
    hide StoreAll, Store, Flatten, Wrap16;
    StoreOne(log.start, room, log.puts, p);
    FlattenOne(log.puts, p);
    WrapAdd(log.was + |Flatten(log.puts)|, |p|);
  }

  lemma JoinPuts(puts: seq<seq<bv8>>, a: seq<bv8>, b: seq<bv8>, rest: seq<seq<bv8>>)
    ensures puts + [a] + [b] + rest == puts + ([a, b] + rest)
  {
  }

  // The puts of each kind of request.
  lemma PutsCases(info: Info)
    requires Readable(info)
    ensures var head := [[info.code], OnWire(info.reg)];
      var coils, bytes := CoilBytes(info.nReg), RegisterBytes(info.nReg);
      match KindOf(info.code)
      case ReadBits => Puts(info) == head + [OnWire(info.nReg)]
      case ReadWords => Puts(info) == head + [OnWire(info.nReg)]
      case WriteOne => Puts(info) == head + [info.value[..2]]
      case WriteCoils =>
        && 8 * coils <= MAX_VALUE
        && Puts(info) == head + ([OnWire(info.nReg), [CountOf(coils)]] + Singles(Packed(info.value, coils)))
      case WriteWords =>
        Puts(info) == head + ([OnWire(info.nReg), [CountOf(bytes)]] + Singles(info.value[..bytes]))
      case Unknown => Puts(info) == head
  {
    hide OnWire, CountOf, Singles, Packed, KindOf;
  }

  lemma MaxValue()
    ensures MAX_VALUE == 2000
  {
  }

  lemma NoSingles(puts: seq<seq<bv8>>, value: seq<bv8>)
    ensures puts + Singles(Packed(value, 0)) == puts && puts + Singles(value[..0]) == puts
  {
  }

  lemma PackNone(v: seq<bv8>, at: nat)
    requires at <= |v|
    ensures PackByte(v, at, 0) == 0
  {
  }

  lemma PackMore(v: seq<bv8>, at: nat, j: nat)
    requires j < 8 && at + j < |v|
    ensures PackByte(v, at, j + 1) == OrByte(PackByte(v, at, j), Flag(v[at + j], j))
  {
  }

  lemma PackedLast(puts: seq<seq<bv8>>, value: seq<bv8>, i: nat)
    requires 8 * (i + 1) <= |value|
    ensures puts + Singles(Packed(value, i)) + [[PackByte(value, 8 * i, 8)]] == puts + Singles(Packed(value, i + 1))
  {
  }

  lemma ValuesLast(puts: seq<seq<bv8>>, value: seq<bv8>, i: nat)
    requires i < |value|
    ensures puts + Singles(value[..i]) + [[value[i]]] == puts + Singles(value[..i + 1])
  {
  }

  lemma CoilCount(nReg: bv16)
    ensures Size(CountOf(Aligned8(Count(nReg)))) == CoilBytes(nReg)
    ensures CountOf(Aligned8(Count(nReg))) == CountOf(CoilBytes(nReg))
  {
    hide Aligned8;
    CountIs(Aligned8(Count(nReg)));
  }

  lemma RegisterCount(nReg: bv16)
    ensures Size(CountOf(Count(nReg) * 2)) == RegisterBytes(nReg)
    ensures CountOf(Count(nReg) * 2) == CountOf(RegisterBytes(nReg))
  {
    CountIs(Count(nReg) * 2);
  }
}
