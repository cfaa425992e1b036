/** The binary trace format byte by byte: which tag starts a record, and at which offset each field lies. */
module BinLayout {
  import opened Options
  import opened BinCodec

  // ---------- integers ----------

  /** Dropping the high bits first and then the low byte is the same as the other way round. */
  lemma DropByte(x: int, m: nat)
    requires m > 0
    ensures 256 * m > 0 && x % (256 * m) % 256 == x % 256 && x % (256 * m) / 256 == x / 256 % m
  {
    var q, u := x / 256 / m, x / 256 % m;
    assert x == 256 * (q * m + u) + x % 256;
    assert x == q * (256 * m) + (256 * u + x % 256) by { Associates(q, m); }
    assert 256 * u + x % 256 < 256 * m;
    Remainder(x, 256 * m, q, 256 * u + x % 256);
  }

  lemma Associates(q: int, m: int)
    ensures 256 * (q * m) == q * (256 * m)
  {
  }

  lemma Remainder(x: int, d: int, q: int, r: int)
    requires d > 0 && 0 <= r < d && x == q * d + r
    ensures x % d == r
  {
    var e := x / d - q;
    assert e * d == r - x % d;
    Multiple(e, d);
  }

  lemma Multiple(e: int, d: int)
    requires d > 0
    ensures (e >= 1 ==> e * d >= d) && (e <= -1 ==> e * d <= -d)
  {
  }

  /** A number is saved low byte first: byte k of x, in two's complement, is x / 256^k mod 256. */
  lemma {:induction false} SavedBytes(x: int, n: nat)
    ensures forall k :: 0 <= k < n ==> Bytes(x % Pow256(n), n)[k] == x / Pow256(k) % 256
    decreases n
  {
    if n > 0 {
      var u := x % Pow256(n);
      DropByte(x, Pow256(n - 1));
      SavedBytes(x / 256, n - 1);
      forall k | 0 <= k < n ensures Bytes(u, n)[k] == x / Pow256(k) % 256 {
        if k > 0 {
          assert Bytes(u, n)[k] == Bytes(u / 256, n - 1)[k - 1] == x / 256 / Pow256(k - 1) % 256;
          Nested(x, Pow256(k - 1));
        }
      }
    }
  }

  lemma Nested(x: int, m: nat)
    requires m > 0
    ensures 256 * m > 0 && x / 256 / m == x / (256 * m)
  {
    var q, u := x / 256 / m, x / 256 % m;
    Associates(q, m);
    Quotient(x, 256 * m, q, 256 * u + x % 256);
  }

  lemma Quotient(x: int, d: int, q: int, r: int)
    requires d > 0 && 0 <= r < d && x == q * d + r
    ensures x / d == q
  {
    Remainder(x, d, q, r);
    assert (x / d - q) * d == 0;
  }

  /** The bytes of an int32_t and of an int64_t, written out. */
  lemma PutBytes(x: int)
    ensures Put32(x) == [x % 256, x / 0x100 % 256, x / 0x1_0000 % 256, x / 0x100_0000 % 256]
    ensures Put64(x) ==
      [x % 256, x / 0x100 % 256, x / 0x1_0000 % 256, x / 0x100_0000 % 256, x / 0x1_0000_0000 % 256,
       x / 0x100_0000_0000 % 256, x / 0x1_0000_0000_0000 % 256, x / 0x100_0000_0000_0000 % 256]
  {
    Powers();
    SavedBytes(x, 4);
    SavedBytes(x, 8);
    assert Pow256(0) == 1 && Pow256(1) == 0x100 && Pow256(2) == 0x1_0000 && Pow256(3) == 0x100_0000;
    assert Pow256(4) == 0x1_0000_0000 && Pow256(5) == 0x100_0000_0000 && Pow256(6) == 0x1_0000_0000_0000
      && Pow256(7) == 0x100_0000_0000_0000;
  }

  /** The unsigned number in the four bytes from i on, the lowest first. */
  function U32(s: seq<byte>, i: nat): nat
    requires i + 4 <= |s|
  {
    s[i] as int + 0x100 * s[i + 1] as int + 0x1_0000 * s[i + 2] as int + 0x100_0000 * s[i + 3] as int
  }

  /** In two's complement. */
  function I32(s: seq<byte>, i: nat): int
    requires i + 4 <= |s|
  {
    if U32(s, i) < 0x8000_0000 then U32(s, i) else U32(s, i) - 0x1_0000_0000
  }

  function I64(s: seq<byte>, i: nat): int
    requires i + 8 <= |s|
  {
    U32(s, i) + 0x1_0000_0000 * I32(s, i + 4)
  }

  lemma ValueOf4(s: seq<byte>)
    requires |s| == 4
    ensures Value(s) == U32(s, 0)
  {
    assert Value(s) == s[0] + 256 * Value(s[1..]);
    assert Value(s[1..]) == s[1] + 256 * Value(s[1..][1..]);
    assert Value(s[1..][1..]) == s[2] + 256 * Value(s[1..][1..][1..]);
    assert Value(s[1..][1..][1..]) == s[3] + 256 * Value(s[1..][1..][1..][1..]);
  }

  lemma ValueOf8(s: seq<byte>)
    requires |s| == 8
    ensures Value(s) == U32(s, 0) + 0x1_0000_0000 * U32(s, 4)
  {
    var t := s[1..][1..][1..][1..];
    assert t == s[4..];
    ValueOf4(t);
    assert Value(s) == s[0] + 256 * Value(s[1..]);
    assert Value(s[1..]) == s[1] + 256 * Value(s[1..][1..]);
    assert Value(s[1..][1..]) == s[2] + 256 * Value(s[1..][1..][1..]);
    assert Value(s[1..][1..][1..]) == s[3] + 256 * Value(t);
  }

  /** Reading an integer at offset i of a file. */
  lemma At32(s: seq<byte>, i: nat)
    ensures i <= |s| ==> Get32(s[i..]) == if i + 4 <= |s| then Got(I32(s, i), s[i + 4..]) else Failed
    ensures i <= |s| ==> GetMode(s[i..]) == if i + 4 <= |s| then Got(U32(s, i), s[i + 4..]) else Failed
  {
    if i + 4 <= |s| {
      ValueOf4(s[i..][..4]);
      assert s[i..][4..] == s[i + 4..];
    }
  }

  lemma At64(s: seq<byte>, i: nat)
    ensures i <= |s| ==> Get64(s[i..]) == if i + 8 <= |s| then Got(I64(s, i), s[i + 8..]) else Failed
  {
    if i + 8 <= |s| {
      ValueOf8(s[i..][..8]);
      assert s[i..][8..] == s[i + 8..];
    }
  }

  lemma {:induction false} BytesOfValue(s: seq<byte>)
    ensures Bytes(Value(s), |s|) == s
  {
    if s != [] {
      BytesOfValue(s[1..]);
      assert Value(s) % 256 == s[0] && Value(s) / 256 == Value(s[1..]);
      assert s == [s[0]] + s[1..];
    }
  }

  /** Every integer has one spelling: the bytes at i are those saved for the number that is read there. */
  lemma OnlySpelling(s: seq<byte>, i: nat)
    ensures i + 4 <= |s| ==> s[i..i + 4] == Put32(I32(s, i)) == Put32(U32(s, i))
    ensures i + 8 <= |s| ==> s[i..i + 8] == Put64(I64(s, i))
  {
    if i + 4 <= |s| {
      Spelling4(s[i..i + 4]);
    }
    if i + 8 <= |s| {
      Spelling8(s[i..i + 8]);
    }
    hide Put32, Put64;
  }

  lemma Spelling4(b: seq<byte>)
    requires |b| == 4
    ensures b == Put32(I32(b, 0)) == Put32(U32(b, 0))
  {
    ValueOf4(b);
    BytesOfValue(b);
    hide Bytes, Value;
    assert U32(b, 0) < M32;
    assert I32(b, 0) % M32 == U32(b, 0) % M32 == U32(b, 0);
  }

  lemma Spelling8(b: seq<byte>)
    requires |b| == 8
    ensures b == Put64(I64(b, 0))
  {
    ValueOf8(b);
    BytesOfValue(b);
    hide Bytes, Value;
    var u := U32(b, 0) + 0x1_0000_0000 * U32(b, 4);
    assert U32(b, 0) < M32 && U32(b, 4) < M32;
    assert I64(b, 0) == u || I64(b, 0) == u - M64;
    hide I64, U32;
    assert I64(b, 0) % M64 == u;
  }

  // ---------- records ----------

  /** Process, duration and start time, in the sixteen bytes from i on. */
  function InfoIn(s: seq<byte>, i: nat): Info
    requires i + 16 <= |s|
  {
    Info(I32(s, i), I32(s, i + 4), I32(s, i + 8), I32(s, i + 12))
  }

  /** name is the text of the n bytes from offset 5 on, up to the first NUL. */
  predicate NameIn(s: seq<byte>, n: nat, name: seq<byte>)
    requires 5 + n <= |s|
  {
    && |name| <= n && name == s[5..5 + |name|] && (forall i :: 0 <= i < |name| ==> name[i] != 0)
    && (|name| < n ==> s[5 + |name|] == 0)
  }

  /** The length of a name, at offset 1; too much for any file if it is negative or cut off. */
  function NameLength(s: seq<byte>): nat {
    if |s| >= 5 && I32(s, 1) >= 0 then I32(s, 1) else |s|
  }

  /** The name at offset 5, up to its first NUL. */
  function NameOf(s: seq<byte>): seq<byte> {
    if 5 + NameLength(s) <= |s| then BeforeNul(s[5..][..NameLength(s)]) else []
  }

  /** The tag with which a record starts; an rmdir is saved under that of mkdir. */
  function TagOf(op: Op): char {
    match op
    case Write(_, _, _, _) => 'w'
    case Read(_, _, _, _) => 'r'
    case Pwrite(_, _, _, _, _) => 'W'
    case Pread(_, _, _, _, _) => 'P'
    case Open(_, _, _, _, _) => 'o'
    case Close(_, _, _) => 'c'
    case Unlink(_, _, _) => 'u'
    case Lseek(_, _, _, _, _) => 'l'
    case Llseek(_, _, _, _, _, _) => 'L'
    case Clone(_, _, _) => 'C'
    case Mkdir(_, _, _, _) => 'M'
    case Rmdir(_, _, _) => 'M'
    case Dup(tag, _, _, _, _, _) => tag as char
    case Pipe(_, _, _, _, _) => 'p'
    case Access(_, _, _, _) => 'a'
    case Stat(_, _, _) => 's'
    case Socket(_, _) => 'S'
    case Sendfile(_, _, _, _, _, _) => 't'
    case RmdirAsMkdir(_, _, _) => 'i'
  }

  /** The record at the front of s, and what follows it: the tag says which fields lie at which offsets. */
  function Spelled(s: seq<byte>): Parsed<Op>
    requires s != []
  {
    var t, n := s[0], NameLength(s);
    if t == 'w' as int then
      if |s| < 37 then Failed else Got(Write(I32(s, 1), I64(s, 5), I64(s, 13), InfoIn(s, 21)), s[37..])
    else if t == 'r' as int then
      if |s| < 37 then Failed else Got(Read(I32(s, 1), I64(s, 5), I64(s, 13), InfoIn(s, 21)), s[37..])
    else if t == 'W' as int then
      if |s| < 45 then Failed else Got(Pwrite(I32(s, 1), I64(s, 5), I64(s, 13), I64(s, 21), InfoIn(s, 29)), s[45..])
    else if t == 'P' as int then
      if |s| < 45 then Failed else Got(Pread(I32(s, 1), I64(s, 5), I64(s, 13), I64(s, 21), InfoIn(s, 29)), s[45..])
    else if t == 'o' as int then
      if |s| < 33 + n then Failed else Got(Open(NameOf(s), I32(s, 5 + n), U32(s, 9 + n), I32(s, 13 + n),
        InfoIn(s, 17 + n)), s[33 + n..])
    else if t == 'c' as int then
      if |s| < 25 then Failed else Got(Close(I32(s, 1), I32(s, 5), InfoIn(s, 9)), s[25..])
    else if t == 'u' as int then
      if |s| < 25 + n then Failed else Got(Unlink(NameOf(s), I32(s, 5 + n), InfoIn(s, 9 + n)), s[25 + n..])
    else if t == 'l' as int then
      if |s| < 41 then Failed else Got(Lseek(I32(s, 1), I32(s, 5), I64(s, 9), I64(s, 17), InfoIn(s, 25)), s[41..])
    else if t == 'L' as int then
      if |s| < 49 then Failed else Got(Llseek(I32(s, 1), I64(s, 5), I64(s, 13), I32(s, 21), I64(s, 25),
        InfoIn(s, 33)), s[49..])
    else if t == 'C' as int then
      if |s| < 25 then Failed else Got(Clone(U32(s, 1), I32(s, 5), InfoIn(s, 9)), s[25..])
    else if t == 'M' as int then
      if |s| < 29 + n then Failed else Got(Mkdir(NameOf(s), U32(s, 5 + n), I32(s, 9 + n),
        InfoIn(s, 13 + n)), s[29 + n..])
    else if t == 'i' as int then
      if |s| < 25 + n then Failed else Got(RmdirAsMkdir(NameOf(s), I32(s, 5 + n), InfoIn(s, 9 + n)), s[25 + n..])
    else if t == 'd' as int || t == 'D' as int || t == 'e' as int then
      if |s| < 33 then Failed else Got(Dup(s[0], I32(s, 1), I32(s, 5), I32(s, 9), I32(s, 13), InfoIn(s, 17)), s[33..])
    else if t == 'p' as int then
      if |s| < 33 then Failed else Got(Pipe(I32(s, 1), I32(s, 5), U32(s, 9), I32(s, 13), InfoIn(s, 17)), s[33..])
    else if t == 'a' as int then
      if |s| < 29 + n then Failed else Got(Access(NameOf(s), U32(s, 5 + n), I32(s, 9 + n),
        InfoIn(s, 13 + n)), s[29 + n..])
    else if t == 's' as int then
      if |s| < 25 + n then Failed else Got(Stat(NameOf(s), I32(s, 5 + n), InfoIn(s, 9 + n)), s[25 + n..])
    else if t == 'S' as int then
      if |s| < 21 then Failed else Got(Socket(I32(s, 1), InfoIn(s, 5)), s[21..])
    else if t == 't' as int then
      if |s| < 49 then Failed else Got(Sendfile(I32(s, 1), I32(s, 5), I64(s, 9), I64(s, 17), I64(s, 25),
        InfoIn(s, 33)), s[49..])
    else Failed
  }

  // ---------- reading ----------

  lemma InfoRead(s: seq<byte>, i: nat)
    ensures i <= |s| ==> GetInfo(s[i..]) == if i + 16 <= |s| then Got(InfoIn(s, i), s[i + 16..]) else Failed
  {
    At32(s, i);
    At32(s, i + 4);
    At32(s, i + 8);
    At32(s, i + 12);
    hide Get32, I32;
  }

  lemma {:induction false} UpToNul(b: seq<byte>)
    ensures var name := BeforeNul(b);
      && |name| <= |b| && name == b[..|name|] && (forall i :: 0 <= i < |name| ==> name[i] != 0)
      && (|name| < |b| ==> b[|name|] == 0)
  {
    if b != [] && b[0] != 0 {
      UpToNul(b[1..]);
      var name := BeforeNul(b[1..]);
      assert BeforeNul(b) == [b[0]] + name;
      assert |name| < |b| - 1 ==> b[1..][|name|] == b[|name| + 1];
    }
  }

  /** Reading a name at offset 1. */
  lemma NameRead(s: seq<byte>)
    requires s != []
    ensures var n := NameLength(s);
      && GetName(s[1..]) == (if 5 + n <= |s| then Got(NameOf(s), s[5 + n..]) else Failed)
      && (5 + n <= |s| ==> NameIn(s, n, NameOf(s)))
  {
    At32(s, 1);
    var n := NameLength(s);
    hide Get32, I32;
    if 5 + n <= |s| {
      var b := s[5..][..n];
      UpToNul(b);
      assert s[5..][n..] == s[5 + n..];
      assert forall i :: 0 <= i < n ==> b[i] == s[5 + i];
      assert b[..|BeforeNul(b)|] == s[5..5 + |BeforeNul(b)|];
    }
  }

  lemma ReadWrite(s: seq<byte>)
    requires s != []
    ensures GetWrite(s[1..]) == if 37 <= |s| then
        Got(Write(I32(s, 1), I64(s, 5), I64(s, 13), InfoIn(s, 21)), s[37..])
      else Failed
  {
    At32(s, 1);
    At64(s, 5);
    At64(s, 13);
    InfoRead(s, 21);
    hide Get32, Get64, GetMode, GetName, GetInfo, I32, I64, U32, InfoIn, NameOf, NameLength;
  }

  lemma ReadRead(s: seq<byte>)
    requires s != []
    ensures GetRead(s[1..]) == if 37 <= |s| then
        Got(Read(I32(s, 1), I64(s, 5), I64(s, 13), InfoIn(s, 21)), s[37..])
      else Failed
  {
    At32(s, 1);
    At64(s, 5);
    At64(s, 13);
    InfoRead(s, 21);
    hide Get32, Get64, GetMode, GetName, GetInfo, I32, I64, U32, InfoIn, NameOf, NameLength;
  }

  lemma ReadPwrite(s: seq<byte>)
    requires s != []
    ensures GetPwrite(s[1..]) == if 45 <= |s| then
        Got(Pwrite(I32(s, 1), I64(s, 5), I64(s, 13), I64(s, 21), InfoIn(s, 29)), s[45..])
      else Failed
  {
    At32(s, 1);
    At64(s, 5);
    At64(s, 13);
    At64(s, 21);
    InfoRead(s, 29);
    hide Get32, Get64, GetMode, GetName, GetInfo, I32, I64, U32, InfoIn, NameOf, NameLength;
  }

  lemma ReadPread(s: seq<byte>)
    requires s != []
    ensures GetPread(s[1..]) == if 45 <= |s| then
        Got(Pread(I32(s, 1), I64(s, 5), I64(s, 13), I64(s, 21), InfoIn(s, 29)), s[45..])
      else Failed
  {
    At32(s, 1);
    At64(s, 5);
    At64(s, 13);
    At64(s, 21);
    InfoRead(s, 29);
    hide Get32, Get64, GetMode, GetName, GetInfo, I32, I64, U32, InfoIn, NameOf, NameLength;
  }

  lemma ReadOpen(s: seq<byte>)
    requires s != []
    ensures var n := NameLength(s);
      GetOpen(s[1..]) == if 33 + n <= |s| then
        Got(Open(NameOf(s), I32(s, 5 + n), U32(s, 9 + n), I32(s, 13 + n), InfoIn(s, 17 + n)), s[33 + n..])
      else Failed
  {
    NameRead(s);
    var n := NameLength(s);
    At32(s, 5 + n);
    At32(s, 9 + n);
    At32(s, 13 + n);
    InfoRead(s, 17 + n);
    hide Get32, Get64, GetMode, GetName, GetInfo, I32, I64, U32, InfoIn, NameOf, NameLength;
  }

  lemma ReadClose(s: seq<byte>)
    requires s != []
    ensures GetClose(s[1..]) == if 25 <= |s| then
        Got(Close(I32(s, 1), I32(s, 5), InfoIn(s, 9)), s[25..])
      else Failed
  {
    At32(s, 1);
    At32(s, 5);
    InfoRead(s, 9);
    hide Get32, Get64, GetMode, GetName, GetInfo, I32, I64, U32, InfoIn, NameOf, NameLength;
  }

  lemma ReadUnlink(s: seq<byte>)
    requires s != []
    ensures var n := NameLength(s);
      GetUnlink(s[1..]) == if 25 + n <= |s| then
        Got(Unlink(NameOf(s), I32(s, 5 + n), InfoIn(s, 9 + n)), s[25 + n..])
      else Failed
  {
    NameRead(s);
    var n := NameLength(s);
    At32(s, 5 + n);
    InfoRead(s, 9 + n);
    hide Get32, Get64, GetMode, GetName, GetInfo, I32, I64, U32, InfoIn, NameOf, NameLength;
  }

  lemma ReadLseek(s: seq<byte>)
    requires s != []
    ensures GetLseek(s[1..]) == if 41 <= |s| then
        Got(Lseek(I32(s, 1), I32(s, 5), I64(s, 9), I64(s, 17), InfoIn(s, 25)), s[41..])
      else Failed
  {
    At32(s, 1);
    At32(s, 5);
    At64(s, 9);
    At64(s, 17);
    InfoRead(s, 25);
    hide Get32, Get64, GetMode, GetName, GetInfo, I32, I64, U32, InfoIn, NameOf, NameLength;
  }

  lemma ReadLlseek(s: seq<byte>)
    requires s != []
    ensures GetLlseek(s[1..]) == if 49 <= |s| then
        Got(Llseek(I32(s, 1), I64(s, 5), I64(s, 13), I32(s, 21), I64(s, 25), InfoIn(s, 33)), s[49..])
      else Failed
  {
    At32(s, 1);
    At64(s, 5);
    At64(s, 13);
    At32(s, 21);
    At64(s, 25);
    InfoRead(s, 33);
    hide Get32, Get64, GetMode, GetName, GetInfo, I32, I64, U32, InfoIn, NameOf, NameLength;
  }

  lemma ReadClone(s: seq<byte>)
    requires s != []
    ensures GetClone(s[1..]) == if 25 <= |s| then
        Got(Clone(U32(s, 1), I32(s, 5), InfoIn(s, 9)), s[25..])
      else Failed
  {
    At32(s, 1);
    At32(s, 5);
    InfoRead(s, 9);
    hide Get32, Get64, GetMode, GetName, GetInfo, I32, I64, U32, InfoIn, NameOf, NameLength;
  }

  lemma ReadMkdir(s: seq<byte>)
    requires s != []
    ensures var n := NameLength(s);
      GetMkdir(s[1..]) == if 29 + n <= |s| then
        Got(Mkdir(NameOf(s), U32(s, 5 + n), I32(s, 9 + n), InfoIn(s, 13 + n)), s[29 + n..])
      else Failed
  {
    NameRead(s);
    var n := NameLength(s);
    At32(s, 5 + n);
    At32(s, 9 + n);
    InfoRead(s, 13 + n);
    hide Get32, Get64, GetMode, GetName, GetInfo, I32, I64, U32, InfoIn, NameOf, NameLength;
  }

  lemma ReadRmdir(s: seq<byte>)
    requires s != []
    ensures var n := NameLength(s);
      GetRmdir(s[1..]) == if 25 + n <= |s| then
        Got(RmdirAsMkdir(NameOf(s), I32(s, 5 + n), InfoIn(s, 9 + n)), s[25 + n..])
      else Failed
  {
    NameRead(s);
    var n := NameLength(s);
    At32(s, 5 + n);
    InfoRead(s, 9 + n);
    hide Get32, Get64, GetMode, GetName, GetInfo, I32, I64, U32, InfoIn, NameOf, NameLength;
  }

  lemma ReadDup(s: seq<byte>)
    requires s != []
    ensures GetDup(s[0], s[1..]) == if 33 <= |s| then
        Got(Dup(s[0], I32(s, 1), I32(s, 5), I32(s, 9), I32(s, 13), InfoIn(s, 17)), s[33..])
      else Failed
  {
    At32(s, 1);
    At32(s, 5);
    At32(s, 9);
    At32(s, 13);
    InfoRead(s, 17);
    hide Get32, Get64, GetMode, GetName, GetInfo, I32, I64, U32, InfoIn, NameOf, NameLength;
  }

  lemma ReadPipe(s: seq<byte>)
    requires s != []
    ensures GetPipe(s[1..]) == if 33 <= |s| then
        Got(Pipe(I32(s, 1), I32(s, 5), U32(s, 9), I32(s, 13), InfoIn(s, 17)), s[33..])
      else Failed
  {
    At32(s, 1);
    At32(s, 5);
    At32(s, 9);
    At32(s, 13);
    InfoRead(s, 17);
    hide Get32, Get64, GetMode, GetName, GetInfo, I32, I64, U32, InfoIn, NameOf, NameLength;
  }

  lemma ReadAccess(s: seq<byte>)
    requires s != []
    ensures var n := NameLength(s);
      GetAccess(s[1..]) == if 29 + n <= |s| then
        Got(Access(NameOf(s), U32(s, 5 + n), I32(s, 9 + n), InfoIn(s, 13 + n)), s[29 + n..])
      else Failed
  {
    NameRead(s);
    var n := NameLength(s);
    At32(s, 5 + n);
    At32(s, 9 + n);
    InfoRead(s, 13 + n);
    hide Get32, Get64, GetMode, GetName, GetInfo, I32, I64, U32, InfoIn, NameOf, NameLength;
  }

  lemma ReadStat(s: seq<byte>)
    requires s != []
    ensures var n := NameLength(s);
      GetStat(s[1..]) == if 25 + n <= |s| then
        Got(Stat(NameOf(s), I32(s, 5 + n), InfoIn(s, 9 + n)), s[25 + n..])
      else Failed
  {
    NameRead(s);
    var n := NameLength(s);
    At32(s, 5 + n);
    InfoRead(s, 9 + n);
    hide Get32, Get64, GetMode, GetName, GetInfo, I32, I64, U32, InfoIn, NameOf, NameLength;
  }

  lemma ReadSocket(s: seq<byte>)
    requires s != []
    ensures GetSocket(s[1..]) == if 21 <= |s| then
        Got(Socket(I32(s, 1), InfoIn(s, 5)), s[21..])
      else Failed
  {
    At32(s, 1);
    InfoRead(s, 5);
    hide Get32, Get64, GetMode, GetName, GetInfo, I32, I64, U32, InfoIn, NameOf, NameLength;
  }

  lemma ReadSendfile(s: seq<byte>)
    requires s != []
    ensures GetSendfile(s[1..]) == if 49 <= |s| then
        Got(Sendfile(I32(s, 1), I32(s, 5), I64(s, 9), I64(s, 17), I64(s, 25), InfoIn(s, 33)), s[49..])
      else Failed
  {
    At32(s, 1);
    At32(s, 5);
    At64(s, 9);
    At64(s, 17);
    At64(s, 25);
    InfoRead(s, 33);
    hide Get32, Get64, GetMode, GetName, GetInfo, I32, I64, U32, InfoIn, NameOf, NameLength;
  }

  lemma RightWrite(s: seq<byte>)
    requires s != [] && s[0] == 'w' as int
    ensures Get(s[0], s[1..]) == Spelled(s)
  {
    ReadWrite(s);
    hide I32, I64, U32, InfoIn, NameIn, NameOf, NameLength, Get32, Get64, GetMode, GetInfo, GetName, GetWrite;
  }

  lemma RightRead(s: seq<byte>)
    requires s != [] && s[0] == 'r' as int
    ensures Get(s[0], s[1..]) == Spelled(s)
  {
    ReadRead(s);
    hide I32, I64, U32, InfoIn, NameIn, NameOf, NameLength, Get32, Get64, GetMode, GetInfo, GetName, GetRead;
  }

  lemma RightPwrite(s: seq<byte>)
    requires s != [] && s[0] == 'W' as int
    ensures Get(s[0], s[1..]) == Spelled(s)
  {
    ReadPwrite(s);
    hide I32, I64, U32, InfoIn, NameIn, NameOf, NameLength, Get32, Get64, GetMode, GetInfo, GetName, GetPwrite;
  }

  lemma RightPread(s: seq<byte>)
    requires s != [] && s[0] == 'P' as int
    ensures Get(s[0], s[1..]) == Spelled(s)
  {
    ReadPread(s);
    hide I32, I64, U32, InfoIn, NameIn, NameOf, NameLength, Get32, Get64, GetMode, GetInfo, GetName, GetPread;
  }

  lemma RightOpen(s: seq<byte>)
    requires s != [] && s[0] == 'o' as int
    ensures Get(s[0], s[1..]) == Spelled(s)
  {
    ReadOpen(s);
    hide I32, I64, U32, InfoIn, NameIn, NameOf, NameLength, Get32, Get64, GetMode, GetInfo, GetName, GetOpen;
  }

  lemma RightClose(s: seq<byte>)
    requires s != [] && s[0] == 'c' as int
    ensures Get(s[0], s[1..]) == Spelled(s)
  {
    ReadClose(s);
    hide I32, I64, U32, InfoIn, NameIn, NameOf, NameLength, Get32, Get64, GetMode, GetInfo, GetName, GetClose;
  }

  lemma RightUnlink(s: seq<byte>)
    requires s != [] && s[0] == 'u' as int
    ensures Get(s[0], s[1..]) == Spelled(s)
  {
    ReadUnlink(s);
    hide I32, I64, U32, InfoIn, NameIn, NameOf, NameLength, Get32, Get64, GetMode, GetInfo, GetName, GetUnlink;
  }

  lemma RightLseek(s: seq<byte>)
    requires s != [] && s[0] == 'l' as int
    ensures Get(s[0], s[1..]) == Spelled(s)
  {
    ReadLseek(s);
    hide I32, I64, U32, InfoIn, NameIn, NameOf, NameLength, Get32, Get64, GetMode, GetInfo, GetName, GetLseek;
  }

  lemma RightLlseek(s: seq<byte>)
    requires s != [] && s[0] == 'L' as int
    ensures Get(s[0], s[1..]) == Spelled(s)
  {
    ReadLlseek(s);
    hide I32, I64, U32, InfoIn, NameIn, NameOf, NameLength, Get32, Get64, GetMode, GetInfo, GetName, GetLlseek;
  }

  lemma RightClone(s: seq<byte>)
    requires s != [] && s[0] == 'C' as int
    ensures Get(s[0], s[1..]) == Spelled(s)
  {
    ReadClone(s);
    hide I32, I64, U32, InfoIn, NameIn, NameOf, NameLength, Get32, Get64, GetMode, GetInfo, GetName, GetClone;
  }

  lemma RightMkdir(s: seq<byte>)
    requires s != [] && s[0] == 'M' as int
    ensures Get(s[0], s[1..]) == Spelled(s)
  {
    ReadMkdir(s);
    hide I32, I64, U32, InfoIn, NameIn, NameOf, NameLength, Get32, Get64, GetMode, GetInfo, GetName, GetMkdir;
  }

  lemma RightRmdir(s: seq<byte>)
    requires s != [] && s[0] == 'i' as int
    ensures Get(s[0], s[1..]) == Spelled(s)
  {
    ReadRmdir(s);
    hide I32, I64, U32, InfoIn, NameIn, NameOf, NameLength, Get32, Get64, GetMode, GetInfo, GetName, GetRmdir;
  }

  lemma RightDup(s: seq<byte>)
    requires s != [] && (s[0] == 'd' as int || s[0] == 'D' as int || s[0] == 'e' as int)
    ensures Get(s[0], s[1..]) == Spelled(s)
  {
    ReadDup(s);
    hide I32, I64, U32, InfoIn, NameIn, NameOf, NameLength, Get32, Get64, GetMode, GetInfo, GetName, GetDup;
  }

  lemma RightPipe(s: seq<byte>)
    requires s != [] && s[0] == 'p' as int
    ensures Get(s[0], s[1..]) == Spelled(s)
  {
    ReadPipe(s);
    hide I32, I64, U32, InfoIn, NameIn, NameOf, NameLength, Get32, Get64, GetMode, GetInfo, GetName, GetPipe;
  }

  lemma RightAccess(s: seq<byte>)
    requires s != [] && s[0] == 'a' as int
    ensures Get(s[0], s[1..]) == Spelled(s)
  {
    ReadAccess(s);
    hide I32, I64, U32, InfoIn, NameIn, NameOf, NameLength, Get32, Get64, GetMode, GetInfo, GetName, GetAccess;
  }

  lemma RightStat(s: seq<byte>)
    requires s != [] && s[0] == 's' as int
    ensures Get(s[0], s[1..]) == Spelled(s)
  {
    ReadStat(s);
    hide I32, I64, U32, InfoIn, NameIn, NameOf, NameLength, Get32, Get64, GetMode, GetInfo, GetName, GetStat;
  }

  lemma RightSocket(s: seq<byte>)
    requires s != [] && s[0] == 'S' as int
    ensures Get(s[0], s[1..]) == Spelled(s)
  {
    ReadSocket(s);
    hide I32, I64, U32, InfoIn, NameIn, NameOf, NameLength, Get32, Get64, GetMode, GetInfo, GetName, GetSocket;
  }

  lemma RightSendfile(s: seq<byte>)
    requires s != [] && s[0] == 't' as int
    ensures Get(s[0], s[1..]) == Spelled(s)
  {
    ReadSendfile(s);
    SendfileTag(s);
    SendfileSpelled(s);
    hide *;
  }

  lemma SendfileTag(s: seq<byte>)
    requires s != [] && s[0] == 't' as int
    ensures Get(s[0], s[1..]) == GetSendfile(s[1..])
  {
    hide GetSendfile;
  }

  lemma SendfileSpelled(s: seq<byte>)
    requires s != [] && s[0] == 't' as int
    ensures Spelled(s) == if 49 <= |s| then
        Got(Sendfile(I32(s, 1), I32(s, 5), I64(s, 9), I64(s, 17), I64(s, 25), InfoIn(s, 33)), s[49..])
      else Failed
  {
    hide I32, I64, U32, InfoIn, NameOf, NameLength;
  }

  /** Any bytes are read as their tag and their offsets say. */
  lemma ReadsRight(s: seq<byte>)
    requires s != []
    ensures Get(s[0], s[1..]) == Spelled(s)
  {
    var t := s[0];
    hide *;
    if t == 'w' as int {
      RightWrite(s);
    } else if t == 'r' as int {
      RightRead(s);
    } else if t == 'W' as int {
      RightPwrite(s);
    } else if t == 'P' as int {
      RightPread(s);
    } else if t == 'o' as int {
      RightOpen(s);
    } else if t == 'c' as int {
      RightClose(s);
    } else if t == 'u' as int {
      RightUnlink(s);
    } else if t == 'l' as int {
      RightLseek(s);
    } else if t == 'L' as int {
      RightLlseek(s);
    } else if t == 'C' as int {
      RightClone(s);
    } else if t == 'M' as int {
      RightMkdir(s);
    } else if t == 'i' as int {
      RightRmdir(s);
    } else if t == 'd' as int || t == 'D' as int || t == 'e' as int {
      RightDup(s);
    } else if t == 'p' as int {
      RightPipe(s);
    } else if t == 'a' as int {
      RightAccess(s);
    } else if t == 's' as int {
      RightStat(s);
    } else if t == 'S' as int {
      RightSocket(s);
    } else if t == 't' as int {
      RightSendfile(s);
    } else {
      NoSuchTag(s);
    }
  }

  lemma NoSuchTag(s: seq<byte>)
    requires s != [] && s[0] != 'w' as int && s[0] != 'r' as int && s[0] != 'W' as int && s[0] != 'P' as int
      && s[0] != 'o' as int && s[0] != 'c' as int && s[0] != 'u' as int && s[0] != 'l' as int && s[0] != 'L' as int
      && s[0] != 'C' as int && s[0] != 'M' as int && s[0] != 'i' as int && s[0] != 'd' as int && s[0] != 'D' as int
      && s[0] != 'e' as int && s[0] != 'p' as int && s[0] != 'a' as int && s[0] != 's' as int && s[0] != 'S' as int
      && s[0] != 't' as int
    ensures Get(s[0], s[1..]) == Spelled(s) == Failed
  {
  }

  /** The first record of a file is the one its tag and its offsets spell, and the rest is read behind it; if they spell
      none, reading ends with -1. */
  lemma FirstRecord(s: seq<byte>)
    requires s != [] && s[0] != 255
    ensures GetAll(s) ==
      match Spelled(s)
      case Failed => (-1, [])
      case Got(op, rest) => (GetAll(rest).0, [op] + GetAll(rest).1)
  {
    ReadsRight(s);
    hide Get, Spelled;
  }

  /** A file that ends, or has a byte 255 where a tag should be, is at its end. */
  lemma EndOfFile(s: seq<byte>)
    requires s == [] || s[0] == 255
    ensures GetAll(s) == (0, [])
  {
  }

  // ---------- saving ----------

  /** A saved record has its tag first, and its fields at the offsets of that tag, whatever follows. */
  lemma SavedRecord(op: Op, rest: seq<byte>)
    requires Fits(op) && !op.Rmdir?
    ensures Put(op) != [] && Put(op)[0] == TagOf(op) as int
    ensures Spelled(Put(op) + rest) == Got(op, rest)
  {
    RecordBack(op, rest);
    FirstByte(Put(op), rest);
    ReadsRight(Put(op) + rest);
    hide Get, Spelled, PutInfo, PutName, Put32, Put64;
  }

  /** An rmdir is saved under the tag of mkdir, without a mode: its name, its result, and the rest. */
  lemma SavedRmdir(op: Op)
    requires op.Rmdir?
    ensures var s, n := Put(op), |op.name|;
      && |s| == 25 + n && s[0] == 'M' as int && s[1..5] == Put32(n) && s[5..5 + n] == op.name
      && s[5 + n..9 + n] == Put32(op.retval) && s[9 + n..] == PutInfo(op.info)
  {
    assert |Put32(|op.name|)| == |Put32(op.retval)| == 4 && |PutInfo(op.info)| == 16;
    hide Put32, PutInfo;
  }

  /** All records of a saved file lie one behind the other. */
  lemma {:induction false} SavedFile(ops: seq<Op>, i: nat)
    requires AllFit(ops) && i < |ops| && !ops[i].Rmdir?
    ensures |PutAll(ops[..i])| < |PutAll(ops)|
    ensures Spelled(PutAll(ops)[|PutAll(ops[..i])|..]) == Got(ops[i], PutAll(ops[i + 1..]))
    decreases i
  {
    hide Put, Fits, Spelled;
    var tail := PutAll(ops[1..]);
    assert Fits(ops[0]);
    if i == 0 {
      assert PutAll(ops[..0]) == [];
      SavedRecord(ops[0], tail);
    } else {
      SavedFile(ops[1..], i - 1);
      assert ops[..i][0] == ops[0] && ops[..i][1..] == ops[1..][..i - 1];
      var k := |PutAll(ops[1..][..i - 1])|;
      assert PutAll(ops)[|Put(ops[0])| + k..] == tail[k..];
      assert ops[1..][i..] == ops[i + 1..];
    }
  }
}
