/** in_binary.c: the binary trace format, its printer and its parser, as functions of byte sequences. */
module BinCodec {

  type byte = x: int | 0 <= x < 256

  /** A value read off the front of the file, and what is left; or an error. */
  datatype Parsed<+T> = Failed | Got(value: T, rest: seq<byte>) {
    predicate IsFailure() { Failed? }
    function PropagateFailure<U>(): Parsed<U>
      requires Failed?
    {
      Failed
    }
    function Extract(): (T, seq<byte>)
      requires Got?
    {
      (value, rest)
    }
  }

  /** op_info_t. */
  datatype Info = Info(pid: int, dur: int, sec: int, usec: int)

  datatype Op =
    | Write(fd: int, size: int, retval: int, info: Info)
    | Read(fd: int, size: int, retval: int, info: Info)
    | Pwrite(fd: int, size: int, offset: int, retval: int, info: Info)
    | Pread(fd: int, size: int, offset: int, retval: int, info: Info)
    | Open(name: seq<byte>, flags: int, mode: int, retval: int, info: Info)
    | Close(fd: int, retval: int, info: Info)
    | Unlink(name: seq<byte>, retval: int, info: Info)
    | Lseek(fd: int, flag: int, offset: int, retval: int, info: Info)
    | Llseek(fd: int, offset: int, fOffset: int, flag: int, retval: int, info: Info)
    | Clone(mode: int, retval: int, info: Info)
    | Mkdir(name: seq<byte>, mode: int, retval: int, info: Info)
    | Rmdir(name: seq<byte>, retval: int, info: Info)
    | Dup(tag: byte, newFd: int, oldFd: int, flags: int, retval: int, info: Info)
    | Pipe(fd1: int, fd2: int, mode: int, retval: int, info: Info)
    | Access(name: seq<byte>, mode: int, retval: int, info: Info)
    | Stat(name: seq<byte>, retval: int, info: Info)
    | Socket(retval: int, info: Info)
    | Sendfile(outFd: int, inFd: int, offset: int, size: int, retval: int, info: Info)
    | RmdirAsMkdir(name: seq<byte>, retval: int, info: Info)  // an rmdir item under mkdir's type, from tag 'i'

  const OP_WRITE: byte := 119  // 'w'
  const OP_READ: byte := 114  // 'r'
  const OP_PWRITE: byte := 87  // 'W'
  const OP_PREAD: byte := 80  // 'P'
  const OP_OPEN: byte := 111  // 'o'
  const OP_CLOSE: byte := 99  // 'c'
  const OP_UNLINK: byte := 117  // 'u'
  const OP_LSEEK: byte := 108  // 'l'
  const OP_LLSEEK: byte := 76  // 'L'
  const OP_CLONE: byte := 67  // 'C'
  const OP_MKDIR: byte := 77  // 'M'
  const OP_RMDIR: byte := 105  // 'i'
  const OP_DUP: byte := 100  // 'd'
  const OP_DUP2: byte := 68  // 'D'
  const OP_DUP3: byte := 101  // 'e'
  const OP_PIPE: byte := 112  // 'p'
  const OP_ACCESS: byte := 97  // 'a'
  const OP_STAT: byte := 115  // 's'
  const OP_SOCKET: byte := 83  // 'S'
  const OP_SENDFILE: byte := 116  // 't'

  /** getc's EOF, read back into a char. */
  const EOF_BYTE: byte := 255

  const MAX_STRING := 512

  // ---------- integers ----------

  function Pow256(n: nat): (p: nat)
    ensures p > 0
  {
    if n == 0 then 1 else 256 * Pow256(n - 1)
  }

  /** The n low bytes of u, lowest first. */
  function Bytes(u: nat, n: nat): (s: seq<byte>)
    ensures |s| == n
  {
    if n == 0 then [] else [u % 256] + Bytes(u / 256, n - 1)
  }

  function Value(s: seq<byte>): (u: nat)
    ensures u < Pow256(|s|)
  {
    if s == [] then 0 else s[0] + 256 * Value(s[1..])
  }

  lemma {:induction false} ValueOfBytes(u: nat, n: nat)
    requires u < Pow256(n)
    ensures Value(Bytes(u, n)) == u
  {
    if n > 0 {
      ValueOfBytes(u / 256, n - 1);
      assert Bytes(u, n)[1..] == Bytes(u / 256, n - 1);
    }
  }

  const M32 := 0x1_0000_0000
  const M64 := 0x1_0000_0000_0000_0000

  lemma Powers()
    ensures Pow256(4) == M32 && Pow256(8) == M64
  {
    assert Pow256(2) == 0x1_0000 && Pow256(3) == 0x100_0000 && Pow256(4) == M32;
    assert Pow256(5) == 0x100_0000_0000 && Pow256(6) == 0x1_0000_0000_0000 && Pow256(7) == 0x100_0000_0000_0000;
  }

  predicate IsInt32(x: int) { -0x8000_0000 <= x < 0x8000_0000 }
  predicate IsUint32(x: int) { 0 <= x < M32 }
  predicate IsInt64(x: int) { -0x8000_0000_0000_0000 <= x < 0x8000_0000_0000_0000 }

  /** htole32 and fwrite; a mode_t is converted to a signed integer of the same bits first. */
  function Put32(x: int): seq<byte> {
    Bytes(x % M32, 4)
  }

  function Put64(x: int): seq<byte> {
    Bytes(x % M64, 8)
  }

  /** fread of n bytes: all of them, or failure. */
  function Take(s: seq<byte>, n: int): (r: Parsed<seq<byte>>)
    ensures r.Got? ==> 0 <= n == |r.value| && r.value + r.rest == s
  {
    if 0 <= n <= |s| then Got(s[..n], s[n..]) else Failed
  }

  function Get32(s: seq<byte>): (r: Parsed<int>)
    ensures r.Got? ==> |r.rest| < |s|
  {
    match Take(s, 4)
    case Failed => Failed
    case Got(b, rest) => Got(if Value(b) < 0x8000_0000 then Value(b) else Value(b) - M32, rest)
  }

  /** The same bits, assigned to a mode_t. */
  function GetMode(s: seq<byte>): (r: Parsed<int>)
    ensures r.Got? ==> |r.rest| < |s|
  {
    match Get32(s)
    case Failed => Failed
    case Got(x, rest) => Got(x % M32, rest)
  }

  function Get64(s: seq<byte>): (r: Parsed<int>)
    ensures r.Got? ==> |r.rest| < |s|
  {
    match Take(s, 8)
    case Failed => Failed
    case Got(b, rest) => Got(if Value(b) < 0x8000_0000_0000_0000 then Value(b) else Value(b) - M64, rest)
  }

  lemma TakeBack(a: seq<byte>, rest: seq<byte>)
    ensures Take(a + rest, |a|) == Got(a, rest)
  {
    assert (a + rest)[..|a|] == a && (a + rest)[|a|..] == rest;
  }

  /** Every 32-bit integer is read back, negative ones included. */
  lemma Int32Back(x: int, rest: seq<byte>)
    requires IsInt32(x)
    ensures Get32(Put32(x) + rest) == Got(x, rest)
  {
    Powers();
    ValueOfBytes(x % M32, 4);
    TakeBack(Put32(x), rest);
  }

  lemma ModeBack(x: int, rest: seq<byte>)
    requires IsUint32(x)
    ensures GetMode(Put32(x) + rest) == Got(x, rest)
  {
    Powers();
    ValueOfBytes(x % M32, 4);
    TakeBack(Put32(x), rest);
  }

  lemma Int64Back(x: int, rest: seq<byte>)
    requires IsInt64(x)
    ensures Get64(Put64(x) + rest) == Got(x, rest)
  {
    Powers();
    ValueOfBytes(x % M64, 8);
    TakeBack(Put64(x), rest);
  }

  // ---------- names ----------

  predicate IsName(s: seq<byte>) {
    |s| < MAX_STRING && forall i :: 0 <= i < |s| ==> s[i] != 0
  }

  /** strlen's length, then the characters. */
  function PutName(s: seq<byte>): seq<byte> {
    Put32(|s|) + s
  }

  /** strncpy: what comes before the first NUL. */
  function BeforeNul(s: seq<byte>): seq<byte> {
    if s == [] || s[0] == 0 then [] else [s[0]] + BeforeNul(s[1..])
  }

  lemma {:induction false} NulFree(s: seq<byte>)
    requires forall i :: 0 <= i < |s| ==> s[i] != 0
    ensures BeforeNul(s) == s
  {
    if s != [] {
      NulFree(s[1..]);
    }
  }

  function GetName(s: seq<byte>): (r: Parsed<seq<byte>>)
    ensures r.Got? ==> |r.rest| < |s|
  {
    match Get32(s)
    case Failed => Failed
    case Got(len, s1) =>
      match Take(s1, len)
      case Failed => Failed
      case Got(b, rest) => Got(BeforeNul(b), rest)
  }

  lemma NameBack(s: seq<byte>, rest: seq<byte>)
    requires IsName(s)
    ensures GetName(PutName(s) + rest) == Got(s, rest)
  {
    assert PutName(s) + rest == Put32(|s|) + (s + rest);
    Int32Back(|s|, s + rest);
    TakeBack(s, rest);
    NulFree(s);
  }

  // ---------- records ----------

  function PutInfo(i: Info): seq<byte> {
    Put32(i.pid) + (Put32(i.dur) + (Put32(i.sec) + Put32(i.usec)))
  }

  function GetInfo(s: seq<byte>): (r: Parsed<Info>)
    ensures r.Got? ==> |r.rest| < |s|
  {
    var (pid, s) :- Get32(s);
    var (dur, s) :- Get32(s);
    var (sec, s) :- Get32(s);
    var (usec, s) :- Get32(s);
    Got(Info(pid, dur, sec, usec), s)
  }

  predicate InfoFits(i: Info) {
    IsInt32(i.pid) && IsInt32(i.dur) && IsInt32(i.sec) && IsInt32(i.usec)
  }

  /** The fields are in the range of their C types, and names fit their buffers. */
  predicate Fits(op: Op) {
    InfoFits(op.info) &&
    match op
    case Write(fd, size, retval, _) => IsInt32(fd) && IsInt64(size) && IsInt64(retval)
    case Read(fd, size, retval, _) => IsInt32(fd) && IsInt64(size) && IsInt64(retval)
    case Pwrite(fd, size, offset, retval, _) => IsInt32(fd) && IsInt64(size) && IsInt64(offset) && IsInt64(retval)
    case Pread(fd, size, offset, retval, _) => IsInt32(fd) && IsInt64(size) && IsInt64(offset) && IsInt64(retval)
    case Open(name, flags, mode, retval, _) => IsName(name) && IsInt32(flags) && IsUint32(mode) && IsInt32(retval)
    case Close(fd, retval, _) => IsInt32(fd) && IsInt32(retval)
    case Unlink(name, retval, _) => IsName(name) && IsInt32(retval)
    case Lseek(fd, flag, offset, retval, _) => IsInt32(fd) && IsInt32(flag) && IsInt64(offset) && IsInt64(retval)
    case Llseek(fd, offset, fOffset, flag, retval, _) =>
      IsInt32(fd) && IsInt64(offset) && IsInt64(fOffset) && IsInt32(flag) && IsInt64(retval)
    case Clone(mode, retval, _) => IsUint32(mode) && IsInt32(retval)
    case Mkdir(name, mode, retval, _) => IsName(name) && IsUint32(mode) && IsInt32(retval)
    case Rmdir(name, retval, _) => IsName(name) && IsInt32(retval)
    case Dup(tag, newFd, oldFd, flags, retval, _) =>
      (tag == OP_DUP || tag == OP_DUP2 || tag == OP_DUP3) && IsInt32(newFd) && IsInt32(oldFd) && IsInt32(flags)
        && IsInt32(retval)
    case Pipe(fd1, fd2, mode, retval, _) => IsInt32(fd1) && IsInt32(fd2) && IsUint32(mode) && IsInt32(retval)
    case Access(name, mode, retval, _) => IsName(name) && IsUint32(mode) && IsInt32(retval)
    case Stat(name, retval, _) => IsName(name) && IsInt32(retval)
    case Socket(retval, _) => IsInt32(retval)
    case Sendfile(outFd, inFd, offset, size, retval, _) =>
      IsInt32(outFd) && IsInt32(inFd) && IsInt64(offset) && IsInt64(size) && IsInt64(retval)
    case RmdirAsMkdir(_, _, _) => false
  }

  /** bin_save_*: the type's tag and the fields in the order in which they are saved. */
  function Put(op: Op): seq<byte> {
    match op
    case Write(fd, size, retval, info) => [OP_WRITE] + (Put32(fd) + (Put64(size) + (Put64(retval) + PutInfo(info))))
    case Read(fd, size, retval, info) => [OP_READ] + (Put32(fd) + (Put64(size) + (Put64(retval) + PutInfo(info))))
    case Pwrite(fd, size, offset, retval, info) =>
      [OP_PWRITE] + (Put32(fd) + (Put64(size) + (Put64(offset) + (Put64(retval) + PutInfo(info)))))
    case Pread(fd, size, offset, retval, info) =>
      [OP_PREAD] + (Put32(fd) + (Put64(size) + (Put64(offset) + (Put64(retval) + PutInfo(info)))))
    case Open(name, flags, mode, retval, info) =>
      [OP_OPEN] + (PutName(name) + (Put32(flags) + (Put32(mode) + (Put32(retval) + PutInfo(info)))))
    case Close(fd, retval, info) => [OP_CLOSE] + (Put32(fd) + (Put32(retval) + PutInfo(info)))
    case Unlink(name, retval, info) => [OP_UNLINK] + (PutName(name) + (Put32(retval) + PutInfo(info)))
    case Lseek(fd, flag, offset, retval, info) =>
      [OP_LSEEK] + (Put32(fd) + (Put32(flag) + (Put64(offset) + (Put64(retval) + PutInfo(info)))))
    case Llseek(fd, offset, fOffset, flag, retval, info) =>
      [OP_LLSEEK] + (Put32(fd) + (Put64(offset) + (Put64(fOffset) + (Put32(flag) + (Put64(retval) + PutInfo(info))))))
    case Clone(mode, retval, info) => [OP_CLONE] + (Put32(mode) + (Put32(retval) + PutInfo(info)))
    case Mkdir(name, mode, retval, info) =>
      [OP_MKDIR] + (PutName(name) + (Put32(mode) + (Put32(retval) + PutInfo(info))))
    case Rmdir(name, retval, info) => [OP_MKDIR] + (PutName(name) + (Put32(retval) + PutInfo(info)))
    case Dup(tag, newFd, oldFd, flags, retval, info) =>
      [tag] + (Put32(newFd) + (Put32(oldFd) + (Put32(flags) + (Put32(retval) + PutInfo(info)))))
    case Pipe(fd1, fd2, mode, retval, info) =>
      [OP_PIPE] + (Put32(fd1) + (Put32(fd2) + (Put32(mode) + (Put32(retval) + PutInfo(info)))))
    case Access(name, mode, retval, info) =>
      [OP_ACCESS] + (PutName(name) + (Put32(mode) + (Put32(retval) + PutInfo(info))))
    case Stat(name, retval, info) => [OP_STAT] + (PutName(name) + (Put32(retval) + PutInfo(info)))
    case Socket(retval, info) => [OP_SOCKET] + (Put32(retval) + PutInfo(info))
    case Sendfile(outFd, inFd, offset, size, retval, info) =>
      [OP_SENDFILE] + (Put32(outFd) + (Put32(inFd) + (Put64(offset) + (Put64(size) + (Put64(retval) + PutInfo(info))))))
    case RmdirAsMkdir(name, retval, info) => []
  }

  function GetWrite(s: seq<byte>): (r: Parsed<Op>)
    ensures r.Got? ==> |r.rest| < |s|
  {
    var (fd, s) :- Get32(s);
    var (size, s) :- Get64(s);
    var (retval, s) :- Get64(s);
    var (info, s) :- GetInfo(s);
    Got(Write(fd, size, retval, info), s)
  }

  function GetRead(s: seq<byte>): (r: Parsed<Op>)
    ensures r.Got? ==> |r.rest| < |s|
  {
    var (fd, s) :- Get32(s);
    var (size, s) :- Get64(s);
    var (retval, s) :- Get64(s);
    var (info, s) :- GetInfo(s);
    Got(Read(fd, size, retval, info), s)
  }

  function GetPwrite(s: seq<byte>): (r: Parsed<Op>)
    ensures r.Got? ==> |r.rest| < |s|
  {
    var (fd, s) :- Get32(s);
    var (size, s) :- Get64(s);
    var (offset, s) :- Get64(s);
    var (retval, s) :- Get64(s);
    var (info, s) :- GetInfo(s);
    Got(Pwrite(fd, size, offset, retval, info), s)
  }

  function GetPread(s: seq<byte>): (r: Parsed<Op>)
    ensures r.Got? ==> |r.rest| < |s|
  {
    var (fd, s) :- Get32(s);
    var (size, s) :- Get64(s);
    var (offset, s) :- Get64(s);
    var (retval, s) :- Get64(s);
    var (info, s) :- GetInfo(s);
    Got(Pread(fd, size, offset, retval, info), s)
  }

  function GetOpen(s: seq<byte>): (r: Parsed<Op>)
    ensures r.Got? ==> |r.rest| < |s|
  {
    var (name, s) :- GetName(s);
    var (flags, s) :- Get32(s);
    var (mode, s) :- GetMode(s);
    var (retval, s) :- Get32(s);
    var (info, s) :- GetInfo(s);
    Got(Open(name, flags, mode, retval, info), s)
  }

  function GetClose(s: seq<byte>): (r: Parsed<Op>)
    ensures r.Got? ==> |r.rest| < |s|
  {
    var (fd, s) :- Get32(s);
    var (retval, s) :- Get32(s);
    var (info, s) :- GetInfo(s);
    Got(Close(fd, retval, info), s)
  }

  function GetUnlink(s: seq<byte>): (r: Parsed<Op>)
    ensures r.Got? ==> |r.rest| < |s|
  {
    var (name, s) :- GetName(s);
    var (retval, s) :- Get32(s);
    var (info, s) :- GetInfo(s);
    Got(Unlink(name, retval, info), s)
  }

  function GetLseek(s: seq<byte>): (r: Parsed<Op>)
    ensures r.Got? ==> |r.rest| < |s|
  {
    var (fd, s) :- Get32(s);
    var (flag, s) :- Get32(s);
    var (offset, s) :- Get64(s);
    var (retval, s) :- Get64(s);
    var (info, s) :- GetInfo(s);
    Got(Lseek(fd, flag, offset, retval, info), s)
  }

  function GetLlseek(s: seq<byte>): (r: Parsed<Op>)
    ensures r.Got? ==> |r.rest| < |s|
  {
    var (fd, s) :- Get32(s);
    var (offset, s) :- Get64(s);
    var (fOffset, s) :- Get64(s);
    var (flag, s) :- Get32(s);
    var (retval, s) :- Get64(s);
    var (info, s) :- GetInfo(s);
    Got(Llseek(fd, offset, fOffset, flag, retval, info), s)
  }

  function GetClone(s: seq<byte>): (r: Parsed<Op>)
    ensures r.Got? ==> |r.rest| < |s|
  {
    var (mode, s) :- GetMode(s);
    var (retval, s) :- Get32(s);
    var (info, s) :- GetInfo(s);
    Got(Clone(mode, retval, info), s)
  }

  function GetMkdir(s: seq<byte>): (r: Parsed<Op>)
    ensures r.Got? ==> |r.rest| < |s|
  {
    var (name, s) :- GetName(s);
    var (mode, s) :- GetMode(s);
    var (retval, s) :- Get32(s);
    var (info, s) :- GetInfo(s);
    Got(Mkdir(name, mode, retval, info), s)
  }

  function GetRmdir(s: seq<byte>): (r: Parsed<Op>)
    ensures r.Got? ==> |r.rest| < |s|
  {
    var (name, s) :- GetName(s);
    var (retval, s) :- Get32(s);
    var (info, s) :- GetInfo(s);
    Got(RmdirAsMkdir(name, retval, info), s)
  }

  function GetDup(tag: byte, s: seq<byte>): (r: Parsed<Op>)
    ensures r.Got? ==> |r.rest| < |s|
  {
    var (newFd, s) :- Get32(s);
    var (oldFd, s) :- Get32(s);
    var (flags, s) :- Get32(s);
    var (retval, s) :- Get32(s);
    var (info, s) :- GetInfo(s);
    Got(Dup(tag, newFd, oldFd, flags, retval, info), s)
  }

  function GetPipe(s: seq<byte>): (r: Parsed<Op>)
    ensures r.Got? ==> |r.rest| < |s|
  {
    var (fd1, s) :- Get32(s);
    var (fd2, s) :- Get32(s);
    var (mode, s) :- GetMode(s);
    var (retval, s) :- Get32(s);
    var (info, s) :- GetInfo(s);
    Got(Pipe(fd1, fd2, mode, retval, info), s)
  }

  function GetAccess(s: seq<byte>): (r: Parsed<Op>)
    ensures r.Got? ==> |r.rest| < |s|
  {
    var (name, s) :- GetName(s);
    var (mode, s) :- GetMode(s);
    var (retval, s) :- Get32(s);
    var (info, s) :- GetInfo(s);
    Got(Access(name, mode, retval, info), s)
  }

  function GetStat(s: seq<byte>): (r: Parsed<Op>)
    ensures r.Got? ==> |r.rest| < |s|
  {
    var (name, s) :- GetName(s);
    var (retval, s) :- Get32(s);
    var (info, s) :- GetInfo(s);
    Got(Stat(name, retval, info), s)
  }

  function GetSocket(s: seq<byte>): (r: Parsed<Op>)
    ensures r.Got? ==> |r.rest| < |s|
  {
    var (retval, s) :- Get32(s);
    var (info, s) :- GetInfo(s);
    Got(Socket(retval, info), s)
  }

  function GetSendfile(s: seq<byte>): (r: Parsed<Op>)
    ensures r.Got? ==> |r.rest| < |s|
  {
    var (outFd, s) :- Get32(s);
    var (inFd, s) :- Get32(s);
    var (offset, s) :- Get64(s);
    var (size, s) :- Get64(s);
    var (retval, s) :- Get64(s);
    var (info, s) :- GetInfo(s);
    Got(Sendfile(outFd, inFd, offset, size, retval, info), s)
  }

  /** One record: the tag decides what is read. */
  function Get(tag: byte, s: seq<byte>): (r: Parsed<Op>)
    ensures r.Got? ==> |r.rest| < |s|
  {

    if tag == OP_WRITE then GetWrite(s)
    else if tag == OP_READ then GetRead(s)
    else if tag == OP_PWRITE then GetPwrite(s)
    else if tag == OP_PREAD then GetPread(s)
    else if tag == OP_OPEN then GetOpen(s)
    else if tag == OP_CLOSE then GetClose(s)
    else if tag == OP_UNLINK then GetUnlink(s)
    else if tag == OP_LSEEK then GetLseek(s)
    else if tag == OP_LLSEEK then GetLlseek(s)
    else if tag == OP_CLONE then GetClone(s)
    else if tag == OP_MKDIR then GetMkdir(s)
    else if tag == OP_RMDIR then GetRmdir(s)
    else if tag == OP_DUP || tag == OP_DUP2 || tag == OP_DUP3 then GetDup(tag, s)
    else if tag == OP_PIPE then GetPipe(s)
    else if tag == OP_ACCESS then GetAccess(s)
    else if tag == OP_STAT then GetStat(s)
    else if tag == OP_SOCKET then GetSocket(s)
    else if tag == OP_SENDFILE then GetSendfile(s)
    else Failed
  }

  // ---------- each record is read back ----------

  lemma Int32Then(x: int, t: seq<byte>, rest: seq<byte>)
    requires IsInt32(x)
    ensures Get32(Put32(x) + t + rest) == Got(x, t + rest)
  {
    assert Put32(x) + t + rest == Put32(x) + (t + rest);
    Int32Back(x, t + rest);
  }

  lemma ModeThen(x: int, t: seq<byte>, rest: seq<byte>)
    requires IsUint32(x)
    ensures GetMode(Put32(x) + t + rest) == Got(x, t + rest)
  {
    assert Put32(x) + t + rest == Put32(x) + (t + rest);
    ModeBack(x, t + rest);
  }

  lemma Int64Then(x: int, t: seq<byte>, rest: seq<byte>)
    requires IsInt64(x)
    ensures Get64(Put64(x) + t + rest) == Got(x, t + rest)
  {
    assert Put64(x) + t + rest == Put64(x) + (t + rest);
    Int64Back(x, t + rest);
  }

  lemma NameThen(s: seq<byte>, t: seq<byte>, rest: seq<byte>)
    requires IsName(s)
    ensures GetName(PutName(s) + t + rest) == Got(s, t + rest)
  {
    assert PutName(s) + t + rest == PutName(s) + (t + rest);
    NameBack(s, t + rest);
  }

  lemma InfoBack(i: Info, rest: seq<byte>)
    requires InfoFits(i)
    ensures GetInfo(PutInfo(i) + rest) == Got(i, rest)
  {
    hide Put32, Get32;
    Int32Then(i.pid, Put32(i.dur) + (Put32(i.sec) + Put32(i.usec)), rest);
    Int32Then(i.dur, Put32(i.sec) + Put32(i.usec), rest);
    Int32Then(i.sec, Put32(i.usec), rest);
    Int32Back(i.usec, rest);
  }

  lemma WriteBack(op: Op, rest: seq<byte>)
    requires op.Write? && Fits(op)
    ensures GetWrite(Put(op)[1..] + rest) == Got(op, rest)
  {
    hide Put32, Put64, PutName, PutInfo, Get32, Get64, GetMode, GetName, GetInfo;
    var Write(fd, size, retval, info) := op;
    Int32Then(fd, Put64(size) + (Put64(retval) + PutInfo(info)), rest);
    Int64Then(size, Put64(retval) + PutInfo(info), rest);
    Int64Then(retval, PutInfo(info), rest);
    InfoBack(info, rest);
  }

  lemma ReadBack(op: Op, rest: seq<byte>)
    requires op.Read? && Fits(op)
    ensures GetRead(Put(op)[1..] + rest) == Got(op, rest)
  {
    hide Put32, Put64, PutName, PutInfo, Get32, Get64, GetMode, GetName, GetInfo;
    var Read(fd, size, retval, info) := op;
    Int32Then(fd, Put64(size) + (Put64(retval) + PutInfo(info)), rest);
    Int64Then(size, Put64(retval) + PutInfo(info), rest);
    Int64Then(retval, PutInfo(info), rest);
    InfoBack(info, rest);
  }

  lemma PwriteBack(op: Op, rest: seq<byte>)
    requires op.Pwrite? && Fits(op)
    ensures GetPwrite(Put(op)[1..] + rest) == Got(op, rest)
  {
    hide Put32, Put64, PutName, PutInfo, Get32, Get64, GetMode, GetName, GetInfo;
    var Pwrite(fd, size, offset, retval, info) := op;
    Int32Then(fd, Put64(size) + (Put64(offset) + (Put64(retval) + PutInfo(info))), rest);
    Int64Then(size, Put64(offset) + (Put64(retval) + PutInfo(info)), rest);
    Int64Then(offset, Put64(retval) + PutInfo(info), rest);
    Int64Then(retval, PutInfo(info), rest);
    InfoBack(info, rest);
  }

  lemma PreadBack(op: Op, rest: seq<byte>)
    requires op.Pread? && Fits(op)
    ensures GetPread(Put(op)[1..] + rest) == Got(op, rest)
  {
    hide Put32, Put64, PutName, PutInfo, Get32, Get64, GetMode, GetName, GetInfo;
    var Pread(fd, size, offset, retval, info) := op;
    Int32Then(fd, Put64(size) + (Put64(offset) + (Put64(retval) + PutInfo(info))), rest);
    Int64Then(size, Put64(offset) + (Put64(retval) + PutInfo(info)), rest);
    Int64Then(offset, Put64(retval) + PutInfo(info), rest);
    Int64Then(retval, PutInfo(info), rest);
    InfoBack(info, rest);
  }

  lemma OpenBack(op: Op, rest: seq<byte>)
    requires op.Open? && Fits(op)
    ensures GetOpen(Put(op)[1..] + rest) == Got(op, rest)
  {
    hide Put32, Put64, PutName, PutInfo, Get32, Get64, GetMode, GetName, GetInfo;
    var Open(name, flags, mode, retval, info) := op;
    NameThen(name, Put32(flags) + (Put32(mode) + (Put32(retval) + PutInfo(info))), rest);
    Int32Then(flags, Put32(mode) + (Put32(retval) + PutInfo(info)), rest);
    ModeThen(mode, Put32(retval) + PutInfo(info), rest);
    Int32Then(retval, PutInfo(info), rest);
    InfoBack(info, rest);
  }

  lemma CloseBack(op: Op, rest: seq<byte>)
    requires op.Close? && Fits(op)
    ensures GetClose(Put(op)[1..] + rest) == Got(op, rest)
  {
    hide Put32, Put64, PutName, PutInfo, Get32, Get64, GetMode, GetName, GetInfo;
    var Close(fd, retval, info) := op;
    Int32Then(fd, Put32(retval) + PutInfo(info), rest);
    Int32Then(retval, PutInfo(info), rest);
    InfoBack(info, rest);
  }

  lemma UnlinkBack(op: Op, rest: seq<byte>)
    requires op.Unlink? && Fits(op)
    ensures GetUnlink(Put(op)[1..] + rest) == Got(op, rest)
  {
    hide Put32, Put64, PutName, PutInfo, Get32, Get64, GetMode, GetName, GetInfo;
    var Unlink(name, retval, info) := op;
    NameThen(name, Put32(retval) + PutInfo(info), rest);
    Int32Then(retval, PutInfo(info), rest);
    InfoBack(info, rest);
  }

  lemma LseekBack(op: Op, rest: seq<byte>)
    requires op.Lseek? && Fits(op)
    ensures GetLseek(Put(op)[1..] + rest) == Got(op, rest)
  {
    hide Put32, Put64, PutName, PutInfo, Get32, Get64, GetMode, GetName, GetInfo;
    var Lseek(fd, flag, offset, retval, info) := op;
    Int32Then(fd, Put32(flag) + (Put64(offset) + (Put64(retval) + PutInfo(info))), rest);
    Int32Then(flag, Put64(offset) + (Put64(retval) + PutInfo(info)), rest);
    Int64Then(offset, Put64(retval) + PutInfo(info), rest);
    Int64Then(retval, PutInfo(info), rest);
    InfoBack(info, rest);
  }

  lemma LlseekBack(op: Op, rest: seq<byte>)
    requires op.Llseek? && Fits(op)
    ensures GetLlseek(Put(op)[1..] + rest) == Got(op, rest)
  {
    hide Put32, Put64, PutName, PutInfo, Get32, Get64, GetMode, GetName, GetInfo;
    var Llseek(fd, offset, fOffset, flag, retval, info) := op;
    Int32Then(fd, Put64(offset) + (Put64(fOffset) + (Put32(flag) + (Put64(retval) + PutInfo(info)))), rest);
    Int64Then(offset, Put64(fOffset) + (Put32(flag) + (Put64(retval) + PutInfo(info))), rest);
    Int64Then(fOffset, Put32(flag) + (Put64(retval) + PutInfo(info)), rest);
    Int32Then(flag, Put64(retval) + PutInfo(info), rest);
    Int64Then(retval, PutInfo(info), rest);
    InfoBack(info, rest);
  }

  lemma CloneBack(op: Op, rest: seq<byte>)
    requires op.Clone? && Fits(op)
    ensures GetClone(Put(op)[1..] + rest) == Got(op, rest)
  {
    hide Put32, Put64, PutName, PutInfo, Get32, Get64, GetMode, GetName, GetInfo;
    var Clone(mode, retval, info) := op;
    ModeThen(mode, Put32(retval) + PutInfo(info), rest);
    Int32Then(retval, PutInfo(info), rest);
    InfoBack(info, rest);
  }

  lemma MkdirBack(op: Op, rest: seq<byte>)
    requires op.Mkdir? && Fits(op)
    ensures GetMkdir(Put(op)[1..] + rest) == Got(op, rest)
  {
    hide Put32, Put64, PutName, PutInfo, Get32, Get64, GetMode, GetName, GetInfo;
    var Mkdir(name, mode, retval, info) := op;
    NameThen(name, Put32(mode) + (Put32(retval) + PutInfo(info)), rest);
    ModeThen(mode, Put32(retval) + PutInfo(info), rest);
    Int32Then(retval, PutInfo(info), rest);
    InfoBack(info, rest);
  }

  lemma DupBack(op: Op, rest: seq<byte>)
    requires op.Dup? && Fits(op)
    ensures GetDup(op.tag, Put(op)[1..] + rest) == Got(op, rest)
  {
    hide Put32, Put64, PutName, PutInfo, Get32, Get64, GetMode, GetName, GetInfo;
    var Dup(tag, newFd, oldFd, flags, retval, info) := op;
    Int32Then(newFd, Put32(oldFd) + (Put32(flags) + (Put32(retval) + PutInfo(info))), rest);
    Int32Then(oldFd, Put32(flags) + (Put32(retval) + PutInfo(info)), rest);
    Int32Then(flags, Put32(retval) + PutInfo(info), rest);
    Int32Then(retval, PutInfo(info), rest);
    InfoBack(info, rest);
  }

  lemma PipeBack(op: Op, rest: seq<byte>)
    requires op.Pipe? && Fits(op)
    ensures GetPipe(Put(op)[1..] + rest) == Got(op, rest)
  {
    hide Put32, Put64, PutName, PutInfo, Get32, Get64, GetMode, GetName, GetInfo;
    var Pipe(fd1, fd2, mode, retval, info) := op;
    Int32Then(fd1, Put32(fd2) + (Put32(mode) + (Put32(retval) + PutInfo(info))), rest);
    Int32Then(fd2, Put32(mode) + (Put32(retval) + PutInfo(info)), rest);
    ModeThen(mode, Put32(retval) + PutInfo(info), rest);
    Int32Then(retval, PutInfo(info), rest);
    InfoBack(info, rest);
  }

  lemma AccessBack(op: Op, rest: seq<byte>)
    requires op.Access? && Fits(op)
    ensures GetAccess(Put(op)[1..] + rest) == Got(op, rest)
  {
    hide Put32, Put64, PutName, PutInfo, Get32, Get64, GetMode, GetName, GetInfo;
    var Access(name, mode, retval, info) := op;
    NameThen(name, Put32(mode) + (Put32(retval) + PutInfo(info)), rest);
    ModeThen(mode, Put32(retval) + PutInfo(info), rest);
    Int32Then(retval, PutInfo(info), rest);
    InfoBack(info, rest);
  }

  lemma StatBack(op: Op, rest: seq<byte>)
    requires op.Stat? && Fits(op)
    ensures GetStat(Put(op)[1..] + rest) == Got(op, rest)
  {
    hide Put32, Put64, PutName, PutInfo, Get32, Get64, GetMode, GetName, GetInfo;
    var Stat(name, retval, info) := op;
    NameThen(name, Put32(retval) + PutInfo(info), rest);
    Int32Then(retval, PutInfo(info), rest);
    InfoBack(info, rest);
  }

  lemma SocketBack(op: Op, rest: seq<byte>)
    requires op.Socket? && Fits(op)
    ensures GetSocket(Put(op)[1..] + rest) == Got(op, rest)
  {
    hide Put32, Put64, PutName, PutInfo, Get32, Get64, GetMode, GetName, GetInfo;
    var Socket(retval, info) := op;
    Int32Then(retval, PutInfo(info), rest);
    InfoBack(info, rest);
  }

  lemma SendfileBack(op: Op, rest: seq<byte>)
    requires op.Sendfile? && Fits(op)
    ensures GetSendfile(Put(op)[1..] + rest) == Got(op, rest)
  {
    hide Put32, Put64, PutName, PutInfo, Get32, Get64, GetMode, GetName, GetInfo;
    var Sendfile(outFd, inFd, offset, size, retval, info) := op;
    Int32Then(outFd, Put32(inFd) + (Put64(offset) + (Put64(size) + (Put64(retval) + PutInfo(info)))), rest);
    Int32Then(inFd, Put64(offset) + (Put64(size) + (Put64(retval) + PutInfo(info))), rest);
    Int64Then(offset, Put64(size) + (Put64(retval) + PutInfo(info)), rest);
    Int64Then(size, Put64(retval) + PutInfo(info), rest);
    Int64Then(retval, PutInfo(info), rest);
    InfoBack(info, rest);
  }
  /** Every record but rmdir is read back as it was, by the reader its tag selects. */
  lemma RecordBack(op: Op, rest: seq<byte>)
    requires Fits(op) && !op.Rmdir?
    ensures Put(op) != [] && Put(op)[0] != EOF_BYTE
    ensures Get(Put(op)[0], Put(op)[1..] + rest) == Got(op, rest)
  {
    hide Put32, Put64, PutName, PutInfo, Get32, Get64, GetMode, GetName, GetInfo;
    hide GetWrite, GetRead, GetPwrite, GetPread, GetOpen, GetClose, GetUnlink, GetLseek, GetLlseek, GetClone,
      GetMkdir, GetRmdir, GetDup, GetPipe, GetAccess, GetStat, GetSocket, GetSendfile;
    match op
    case Write(_, _, _, _) => WriteBack(op, rest);
    case Read(_, _, _, _) => ReadBack(op, rest);
    case Pwrite(_, _, _, _, _) => PwriteBack(op, rest);
    case Pread(_, _, _, _, _) => PreadBack(op, rest);
    case Open(_, _, _, _, _) => OpenBack(op, rest);
    case Close(_, _, _) => CloseBack(op, rest);
    case Unlink(_, _, _) => UnlinkBack(op, rest);
    case Lseek(_, _, _, _, _) => LseekBack(op, rest);
    case Llseek(_, _, _, _, _, _) => LlseekBack(op, rest);
    case Clone(_, _, _) => CloneBack(op, rest);
    case Mkdir(_, _, _, _) => MkdirBack(op, rest);
    case Dup(_, _, _, _, _, _) => DupBack(op, rest);
    case Pipe(_, _, _, _, _) => PipeBack(op, rest);
    case Access(_, _, _, _) => AccessBack(op, rest);
    case Stat(_, _, _) => StatBack(op, rest);
    case Socket(_, _) => SocketBack(op, rest);
    case Sendfile(_, _, _, _, _, _) => SendfileBack(op, rest);
  }

  /** No reader makes an rmdir record. */
  lemma NeverRmdir(tag: byte, s: seq<byte>)
    ensures Get(tag, s).Got? ==> !Get(tag, s).value.Rmdir?
  {
    hide Get32, Get64, GetMode, GetName, GetInfo;
  }

  // ---------- whole files ----------

  /** bin_save_items. */
  function PutAll(ops: seq<Op>): seq<byte> {
    if ops == [] then [] else Put(ops[0]) + PutAll(ops[1..])
  }

  /** bin_get_items: the result, and the records read up to the end of the file or the first error. */
  function GetAll(s: seq<byte>): (int, seq<Op>)
    decreases |s|
  {
    if s == [] || s[0] == EOF_BYTE then (0, [])
    else
      match Get(s[0], s[1..])
      case Failed => (-1, [])
      case Got(op, rest) => var (rv, ops) := GetAll(rest); (rv, [op] + ops)
  }

  lemma GetAllStep(op: Op, rest: seq<byte>)
    requires Fits(op) && !op.Rmdir?
    ensures GetAll(Put(op) + rest) == (GetAll(rest).0, [op] + GetAll(rest).1)
  {
    RecordBack(op, rest);
    hide Put, Get, Fits, GetAll;
    FirstByte(Put(op), rest);
    GetAllOnce(Put(op) + rest, op, rest);
  }

  lemma FirstByte(s: seq<byte>, rest: seq<byte>)
    requires s != []
    ensures s + rest != [] && (s + rest)[0] == s[0] && (s + rest)[1..] == s[1..] + rest
  {
  }

  lemma GetAllOnce(s: seq<byte>, op: Op, rest: seq<byte>)
    requires s != [] && s[0] != EOF_BYTE && Get(s[0], s[1..]) == Got(op, rest)
    ensures GetAll(s) == (GetAll(rest).0, [op] + GetAll(rest).1)
  {
    hide Get;
  }

  predicate AllFit(ops: seq<Op>) {
    forall i :: 0 <= i < |ops| ==> Fits(ops[i])
  }

  predicate NoRmdir(ops: seq<Op>) {
    forall i :: 0 <= i < |ops| ==> !ops[i].Rmdir?
  }

  /** What was saved is what is read, records and order alike, exactly when no record is an rmdir. */
  lemma {:induction false} RoundTripExact(ops: seq<Op>)
    requires AllFit(ops)
    ensures GetAll(PutAll(ops)) == (0, ops) <==> NoRmdir(ops)
    decreases |ops|
  {
    hide Put, Get, Fits;
    if ops != [] {
      var rest := PutAll(ops[1..]);
      assert Fits(ops[0]);
      RoundTripExact(ops[1..]);
      if !ops[0].Rmdir? {
        GetAllStep(ops[0], rest);
        assert ([ops[0]] + GetAll(rest).1)[1..] == GetAll(rest).1;
        assert [ops[0]] + ops[1..] == ops;
        assert NoRmdir(ops) <==> NoRmdir(ops[1..]);
      } else {
        FirstIsNotRmdir(PutAll(ops));
      }
    }
  }

  lemma FirstIsNotRmdir(s: seq<byte>)
    ensures GetAll(s).1 != [] ==> !GetAll(s).1[0].Rmdir?
  {
    if s != [] {
      NeverRmdir(s[0], s[1..]);
    }
    hide Get;
  }

  /** An rmdir that ends the file is taken for a mkdir that breaks off: the records before it are read, and the
      result is -1. */
  lemma {:induction false} RmdirAtEnd(ops: seq<Op>, last: Op)
    requires AllFit(ops) && NoRmdir(ops) && last.Rmdir? && Fits(last)
    ensures GetAll(PutAll(ops + [last])) == (-1, ops)
    decreases |ops|
  {
    hide Put, Get, Fits;
    if ops == [] {
      RmdirBreaksOff(last);
      assert ops + [last] == [last];
      assert PutAll([last]) == Put(last) + PutAll([]) == Put(last);
    } else {
      assert (ops + [last])[0] == ops[0] && (ops + [last])[1..] == ops[1..] + [last];
      assert Fits(ops[0]);
      RmdirAtEnd(ops[1..], last);
      GetAllStep(ops[0], PutAll(ops[1..] + [last]));
      assert [ops[0]] + ops[1..] == ops;
    }
  }

  lemma RmdirBreaksOff(op: Op)
    requires op.Rmdir? && Fits(op)
    ensures Put(op) != [] && Put(op)[0] == OP_MKDIR && Get(OP_MKDIR, Put(op)[1..]) == Failed
  {
    hide Put32, PutName, Get32, GetName;
    var Rmdir(name, retval, info) := op;
    var s := Put(op)[1..];
    assert s + [] == s;
    NameThen(name, Put32(retval) + PutInfo(info), []);
    Int32Then(retval, PutInfo(info), []);
    ModeOf(retval, PutInfo(info));
    assert Put32(retval) + PutInfo(info) + [] == Put32(retval) + PutInfo(info);
    Int32Then(info.pid, Put32(info.dur) + (Put32(info.sec) + Put32(info.usec)), []);
    Int32Then(info.dur, Put32(info.sec) + Put32(info.usec), []);
    Int32Then(info.sec, Put32(info.usec), []);
    Int32Back(info.usec, []);
    NothingLeft();
  }

  lemma ModeOf(x: int, rest: seq<byte>)
    requires IsInt32(x)
    ensures GetMode(Put32(x) + rest) == Got(x % M32, rest)
  {
    Int32Back(x, rest);
  }

  lemma NothingLeft()
    ensures Get32([]) == Failed
  {
  }
}
