/** in_binary.c: saving a trace to a file and reading it back, step by step. */
module TraceFile {
  import opened Options
  import opened BinCodec

  /** A step read r and left rest, as p says. */
  predicate As<T(==)>(p: Parsed<T>, r: Option<T>, rest: seq<byte>) {
    match p
    case Failed => r == None
    case Got(v, s) => r == Some(v) && rest == s
  }

  lemma Regroup(d: seq<byte>, a: seq<byte>, b: seq<byte>)
    ensures d + a + b == d + (a + b)
  {
  }

  lemma Cat3(d: seq<byte>, a1: seq<byte>, a2: seq<byte>, a3: seq<byte>)
    ensures d + a1 + a2 + a3 == d + (a1 + (a2 + a3))
  {
    Regroup(d + a1, a2, a3);
    Regroup(d, a1, a2 + a3);
  }

  lemma Cat4(d: seq<byte>, a1: seq<byte>, a2: seq<byte>, a3: seq<byte>, a4: seq<byte>)
    ensures d + a1 + a2 + a3 + a4 == d + (a1 + (a2 + (a3 + a4)))
  {
    Regroup(d + a1 + a2, a3, a4);
    Cat3(d, a1, a2, a3 + a4);
  }

  lemma Cat5(d: seq<byte>, a1: seq<byte>, a2: seq<byte>, a3: seq<byte>, a4: seq<byte>, a5: seq<byte>)
    ensures d + a1 + a2 + a3 + a4 + a5 == d + (a1 + (a2 + (a3 + (a4 + a5))))
  {
    Regroup(d + a1 + a2 + a3, a4, a5);
    Cat4(d, a1, a2, a3, a4 + a5);
  }

  lemma Cat6(d: seq<byte>, a1: seq<byte>, a2: seq<byte>, a3: seq<byte>, a4: seq<byte>, a5: seq<byte>, a6: seq<byte>)
    ensures d + a1 + a2 + a3 + a4 + a5 + a6 == d + (a1 + (a2 + (a3 + (a4 + (a5 + a6)))))
  {
    Regroup(d + a1 + a2 + a3 + a4, a5, a6);
    Cat5(d, a1, a2, a3, a4, a5 + a6);
  }

  lemma Cat7(d: seq<byte>, a1: seq<byte>, a2: seq<byte>, a3: seq<byte>, a4: seq<byte>, a5: seq<byte>, a6: seq<byte>,
             a7: seq<byte>)
    ensures d + a1 + a2 + a3 + a4 + a5 + a6 + a7 == d + (a1 + (a2 + (a3 + (a4 + (a5 + (a6 + a7))))))
  {
    Regroup(d + a1 + a2 + a3 + a4 + a5, a6, a7);
    Cat6(d, a1, a2, a3, a4, a5, a6 + a7);
  }

  /** strncpy from a buffer with a NUL after its end. */
  method CopyName(buff: seq<byte>) returns (name: seq<byte>)
    ensures name == BeforeNul(buff)
  {
    name := [];
    var i := 0;
    while i < |buff| && buff[i] != 0
      invariant 0 <= i <= |buff|
      invariant buff[0..] == buff && name + BeforeNul(buff[i..]) == BeforeNul(buff)
    {
      assert buff[i..][1..] == buff[i + 1..];
      name := name + [buff[i]];
      i := i + 1;
    }
    assert BeforeNul(buff[i..]) == [];
  }

  class File {
    var data: seq<byte>
    var pos: nat

    ghost predicate Valid()
      reads this
    {
      pos <= |data|
    }

    /** What has not been read yet. */
    ghost function Rest(): seq<byte>
      reads this
      requires Valid()
    {
      data[pos..]
    }

    constructor (data: seq<byte>)
      ensures Valid() && this.data == data && Rest() == data
    {
      this.data := data;
      pos := 0;
    }

    // ---------- saving ----------

    method WriteInt32(x: int)
      modifies this`data
      ensures data == old(data) + Put32(x)
    {
      data := data + Put32(x);
    }

    method WriteInt64(x: int)
      modifies this`data
      ensures data == old(data) + Put64(x)
    {
      data := data + Put64(x);
    }

    method WriteChar(c: byte)
      modifies this`data
      ensures data == old(data) + [c]
    {
      data := data + [c];
    }

    method WriteName(name: seq<byte>)
      modifies this`data
      ensures data == old(data) + PutName(name)
    {
      WriteInt32(|name|);
      data := data + name;
    }

    /** bin_write_info. */
    method WriteInfo(i: Info)
      modifies this`data
      ensures data == old(data) + PutInfo(i)
    {
      WriteInt32(i.pid);
      WriteInt32(i.dur);
      WriteInt32(i.sec);
      WriteInt32(i.usec);
    }

    method SaveWrite(op: Op)
      requires op.Write?
      modifies this`data
      ensures data == old(data) + Put(op)
    {
      hide Put32, Put64, PutName, PutInfo;
      Cat5(data, [OP_WRITE], Put32(op.fd), Put64(op.size), Put64(op.retval), PutInfo(op.info));
      WriteChar(OP_WRITE);
      WriteInt32(op.fd);
      WriteInt64(op.size);
      WriteInt64(op.retval);
      WriteInfo(op.info);
    }

    method SaveRead(op: Op)
      requires op.Read?
      modifies this`data
      ensures data == old(data) + Put(op)
    {
      hide Put32, Put64, PutName, PutInfo;
      Cat5(data, [OP_READ], Put32(op.fd), Put64(op.size), Put64(op.retval), PutInfo(op.info));
      WriteChar(OP_READ);
      WriteInt32(op.fd);
      WriteInt64(op.size);
      WriteInt64(op.retval);
      WriteInfo(op.info);
    }

    method SavePwrite(op: Op)
      requires op.Pwrite?
      modifies this`data
      ensures data == old(data) + Put(op)
    {
      hide Put32, Put64, PutName, PutInfo;
      Cat6(data, [OP_PWRITE], Put32(op.fd), Put64(op.size), Put64(op.offset), Put64(op.retval), PutInfo(op.info));
      WriteChar(OP_PWRITE);
      WriteInt32(op.fd);
      WriteInt64(op.size);
      WriteInt64(op.offset);
      WriteInt64(op.retval);
      WriteInfo(op.info);
    }

    method SavePread(op: Op)
      requires op.Pread?
      modifies this`data
      ensures data == old(data) + Put(op)
    {
      hide Put32, Put64, PutName, PutInfo;
      Cat6(data, [OP_PREAD], Put32(op.fd), Put64(op.size), Put64(op.offset), Put64(op.retval), PutInfo(op.info));
      WriteChar(OP_PREAD);
      WriteInt32(op.fd);
      WriteInt64(op.size);
      WriteInt64(op.offset);
      WriteInt64(op.retval);
      WriteInfo(op.info);
    }

    method SaveOpen(op: Op)
      requires op.Open?
      modifies this`data
      ensures data == old(data) + Put(op)
    {
      hide Put32, Put64, PutName, PutInfo;
      Cat6(data, [OP_OPEN], PutName(op.name), Put32(op.flags), Put32(op.mode), Put32(op.retval), PutInfo(op.info));
      WriteChar(OP_OPEN);
      WriteName(op.name);
      WriteInt32(op.flags);
      WriteInt32(op.mode);
      WriteInt32(op.retval);
      WriteInfo(op.info);
    }

    method SaveClose(op: Op)
      requires op.Close?
      modifies this`data
      ensures data == old(data) + Put(op)
    {
      hide Put32, Put64, PutName, PutInfo;
      Cat4(data, [OP_CLOSE], Put32(op.fd), Put32(op.retval), PutInfo(op.info));
      WriteChar(OP_CLOSE);
      WriteInt32(op.fd);
      WriteInt32(op.retval);
      WriteInfo(op.info);
    }

    method SaveUnlink(op: Op)
      requires op.Unlink?
      modifies this`data
      ensures data == old(data) + Put(op)
    {
      hide Put32, Put64, PutName, PutInfo;
      Cat4(data, [OP_UNLINK], PutName(op.name), Put32(op.retval), PutInfo(op.info));
      WriteChar(OP_UNLINK);
      WriteName(op.name);
      WriteInt32(op.retval);
      WriteInfo(op.info);
    }

    method SaveLseek(op: Op)
      requires op.Lseek?
      modifies this`data
      ensures data == old(data) + Put(op)
    {
      hide Put32, Put64, PutName, PutInfo;
      Cat6(data, [OP_LSEEK], Put32(op.fd), Put32(op.flag), Put64(op.offset), Put64(op.retval), PutInfo(op.info));
      WriteChar(OP_LSEEK);
      WriteInt32(op.fd);
      WriteInt32(op.flag);
      WriteInt64(op.offset);
      WriteInt64(op.retval);
      WriteInfo(op.info);
    }

    method SaveLlseek(op: Op)
      requires op.Llseek?
      modifies this`data
      ensures data == old(data) + Put(op)
    {
      hide Put32, Put64, PutName, PutInfo;
      Cat7(data, [OP_LLSEEK], Put32(op.fd), Put64(op.offset), Put64(op.fOffset), Put32(op.flag), Put64(op.retval),
           PutInfo(op.info));
      WriteChar(OP_LLSEEK);
      WriteInt32(op.fd);
      WriteInt64(op.offset);
      WriteInt64(op.fOffset);
      WriteInt32(op.flag);
      WriteInt64(op.retval);
      WriteInfo(op.info);
    }

    method SaveClone(op: Op)
      requires op.Clone?
      modifies this`data
      ensures data == old(data) + Put(op)
    {
      hide Put32, Put64, PutName, PutInfo;
      Cat4(data, [OP_CLONE], Put32(op.mode), Put32(op.retval), PutInfo(op.info));
      WriteChar(OP_CLONE);
      WriteInt32(op.mode);
      WriteInt32(op.retval);
      WriteInfo(op.info);
    }

    method SaveMkdir(op: Op)
      requires op.Mkdir?
      modifies this`data
      ensures data == old(data) + Put(op)
    {
      hide Put32, Put64, PutName, PutInfo;
      Cat5(data, [OP_MKDIR], PutName(op.name), Put32(op.mode), Put32(op.retval), PutInfo(op.info));
      WriteChar(OP_MKDIR);
      WriteName(op.name);
      WriteInt32(op.mode);
      WriteInt32(op.retval);
      WriteInfo(op.info);
    }

    method SaveRmdir(op: Op)
      requires op.Rmdir?
      modifies this`data
      ensures data == old(data) + Put(op)
    {
      hide Put32, Put64, PutName, PutInfo;
      Cat4(data, [OP_MKDIR], PutName(op.name), Put32(op.retval), PutInfo(op.info));
      WriteChar(OP_MKDIR);
      WriteName(op.name);
      WriteInt32(op.retval);
      WriteInfo(op.info);
    }

    method SaveDup(op: Op)
      requires op.Dup?
      modifies this`data
      ensures data == old(data) + Put(op)
    {
      hide Put32, Put64, PutName, PutInfo;
      Cat6(data, [op.tag], Put32(op.newFd), Put32(op.oldFd), Put32(op.flags), Put32(op.retval), PutInfo(op.info));
      WriteChar(op.tag);
      WriteInt32(op.newFd);
      WriteInt32(op.oldFd);
      WriteInt32(op.flags);
      WriteInt32(op.retval);
      WriteInfo(op.info);
    }

    method SavePipe(op: Op)
      requires op.Pipe?
      modifies this`data
      ensures data == old(data) + Put(op)
    {
      hide Put32, Put64, PutName, PutInfo;
      Cat6(data, [OP_PIPE], Put32(op.fd1), Put32(op.fd2), Put32(op.mode), Put32(op.retval), PutInfo(op.info));
      WriteChar(OP_PIPE);
      WriteInt32(op.fd1);
      WriteInt32(op.fd2);
      WriteInt32(op.mode);
      WriteInt32(op.retval);
      WriteInfo(op.info);
    }

    method SaveAccess(op: Op)
      requires op.Access?
      modifies this`data
      ensures data == old(data) + Put(op)
    {
      hide Put32, Put64, PutName, PutInfo;
      Cat5(data, [OP_ACCESS], PutName(op.name), Put32(op.mode), Put32(op.retval), PutInfo(op.info));
      WriteChar(OP_ACCESS);
      WriteName(op.name);
      WriteInt32(op.mode);
      WriteInt32(op.retval);
      WriteInfo(op.info);
    }

    method SaveStat(op: Op)
      requires op.Stat?
      modifies this`data
      ensures data == old(data) + Put(op)
    {
      hide Put32, Put64, PutName, PutInfo;
      Cat4(data, [OP_STAT], PutName(op.name), Put32(op.retval), PutInfo(op.info));
      WriteChar(OP_STAT);
      WriteName(op.name);
      WriteInt32(op.retval);
      WriteInfo(op.info);
    }

    method SaveSocket(op: Op)
      requires op.Socket?
      modifies this`data
      ensures data == old(data) + Put(op)
    {
      hide Put32, Put64, PutName, PutInfo;
      Cat3(data, [OP_SOCKET], Put32(op.retval), PutInfo(op.info));
      WriteChar(OP_SOCKET);
      WriteInt32(op.retval);
      WriteInfo(op.info);
    }

    method SaveSendfile(op: Op)
      requires op.Sendfile?
      modifies this`data
      ensures data == old(data) + Put(op)
    {
      hide Put32, Put64, PutName, PutInfo;
      Cat7(data, [OP_SENDFILE], Put32(op.outFd), Put32(op.inFd), Put64(op.offset), Put64(op.size), Put64(op.retval),
           PutInfo(op.info));
      WriteChar(OP_SENDFILE);
      WriteInt32(op.outFd);
      WriteInt32(op.inFd);
      WriteInt64(op.offset);
      WriteInt64(op.size);
      WriteInt64(op.retval);
      WriteInfo(op.info);
    }

    method SaveItem(op: Op)
      requires Fits(op)
      modifies this`data
      ensures data == old(data) + Put(op)
    {
      hide Put;
      match op
      case Write(_, _, _, _) => SaveWrite(op);
      case Read(_, _, _, _) => SaveRead(op);
      case Pwrite(_, _, _, _, _) => SavePwrite(op);
      case Pread(_, _, _, _, _) => SavePread(op);
      case Open(_, _, _, _, _) => SaveOpen(op);
      case Close(_, _, _) => SaveClose(op);
      case Unlink(_, _, _) => SaveUnlink(op);
      case Lseek(_, _, _, _, _) => SaveLseek(op);
      case Llseek(_, _, _, _, _, _) => SaveLlseek(op);
      case Clone(_, _, _) => SaveClone(op);
      case Mkdir(_, _, _, _) => SaveMkdir(op);
      case Rmdir(_, _, _) => SaveRmdir(op);
      case Dup(_, _, _, _, _, _) => SaveDup(op);
      case Pipe(_, _, _, _, _) => SavePipe(op);
      case Access(_, _, _, _) => SaveAccess(op);
      case Stat(_, _, _) => SaveStat(op);
      case Socket(_, _) => SaveSocket(op);
      case Sendfile(_, _, _, _, _, _) => SaveSendfile(op);
    }

    /** bin_save_items: the file is emptied first. */
    method SaveItems(ops: seq<Op>)
      requires AllFit(ops)
      modifies this
      ensures Valid() && data == PutAll(ops) && Rest() == data
    {
      hide Put, Fits;
      data, pos := [], 0;
      var i := 0;
      while i < |ops|
        invariant 0 <= i <= |ops|
        invariant data + PutAll(ops[i..]) == PutAll(ops)
        invariant pos == 0
      {
        ghost var d := data;
        assert Fits(ops[i]);
        SaveItem(ops[i]);
        Regroup(d, Put(ops[i]), PutAll(ops[i + 1..]));
        assert ops[i..][1..] == ops[i + 1..];
        i := i + 1;
      }
      assert ops[i..] == [];
    }

    // ---------- reading ----------

    /** fread of n bytes: fewer than asked for is an error. */
    method Fread(n: int) returns (r: Option<seq<byte>>)
      requires Valid()
      modifies this`pos
      ensures Valid() && As(Take(old(Rest()), n), r, Rest())
    {
      if n < 0 || |data| - pos < n {
        pos := |data|;
        return None;
      }
      assert Rest()[..n] == data[pos..pos + n] && Rest()[n..] == data[pos + n..];
      r := Some(data[pos..pos + n]);
      pos := pos + n;
    }

    method ReadInt32() returns (r: Option<int>)
      requires Valid()
      modifies this`pos
      ensures Valid() && As(Get32(old(Rest())), r, Rest())
    {
      hide Value;
      var b :- Fread(4);
      var v := Value(b);
      r := Some(if v < 0x8000_0000 then v else v - M32);
    }

    method ReadMode() returns (r: Option<int>)
      requires Valid()
      modifies this`pos
      ensures Valid() && As(GetMode(old(Rest())), r, Rest())
    {
      hide Get32;
      var x :- ReadInt32();
      r := Some(x % M32);
    }

    method ReadInt64() returns (r: Option<int>)
      requires Valid()
      modifies this`pos
      ensures Valid() && As(Get64(old(Rest())), r, Rest())
    {
      hide Value;
      var b :- Fread(8);
      var v := Value(b);
      r := Some(if v < 0x8000_0000_0000_0000 then v else v - M64);
    }

    method ReadName() returns (r: Option<seq<byte>>)
      requires Valid()
      modifies this`pos
      ensures Valid() && As(GetName(old(Rest())), r, Rest())
    {
      hide Get32;
      var len :- ReadInt32();
      var buff :- Fread(len);
      var name := CopyName(buff);
      r := Some(name);
    }

    /** bin_read_info. */
    method ReadInfo() returns (r: Option<Info>)
      requires Valid()
      modifies this`pos
      ensures Valid() && As(GetInfo(old(Rest())), r, Rest())
    {
      hide Get32;
      var pid :- ReadInt32();
      var dur :- ReadInt32();
      var sec :- ReadInt32();
      var usec :- ReadInt32();
      r := Some(Info(pid, dur, sec, usec));
    }

    method ReadWrite() returns (r: Option<Op>)
      requires Valid()
      modifies this`pos
      ensures Valid() && As(GetWrite(old(Rest())), r, Rest())
    {
      hide Get32, Get64, GetMode, GetName, GetInfo;
      var fd :- ReadInt32();
      var size :- ReadInt64();
      var retval :- ReadInt64();
      var info :- ReadInfo();
      r := Some(Write(fd, size, retval, info));
    }

    method ReadRead() returns (r: Option<Op>)
      requires Valid()
      modifies this`pos
      ensures Valid() && As(GetRead(old(Rest())), r, Rest())
    {
      hide Get32, Get64, GetMode, GetName, GetInfo;
      var fd :- ReadInt32();
      var size :- ReadInt64();
      var retval :- ReadInt64();
      var info :- ReadInfo();
      r := Some(Read(fd, size, retval, info));
    }

    method ReadPwrite() returns (r: Option<Op>)
      requires Valid()
      modifies this`pos
      ensures Valid() && As(GetPwrite(old(Rest())), r, Rest())
    {
      hide Get32, Get64, GetMode, GetName, GetInfo;
      var fd :- ReadInt32();
      var size :- ReadInt64();
      var offset :- ReadInt64();
      var retval :- ReadInt64();
      var info :- ReadInfo();
      r := Some(Pwrite(fd, size, offset, retval, info));
    }

    method ReadPread() returns (r: Option<Op>)
      requires Valid()
      modifies this`pos
      ensures Valid() && As(GetPread(old(Rest())), r, Rest())
    {
      hide Get32, Get64, GetMode, GetName, GetInfo;
      var fd :- ReadInt32();
      var size :- ReadInt64();
      var offset :- ReadInt64();
      var retval :- ReadInt64();
      var info :- ReadInfo();
      r := Some(Pread(fd, size, offset, retval, info));
    }

    method ReadOpen() returns (r: Option<Op>)
      requires Valid()
      modifies this`pos
      ensures Valid() && As(GetOpen(old(Rest())), r, Rest())
    {
      hide Get32, Get64, GetMode, GetName, GetInfo;
      var name :- ReadName();
      var flags :- ReadInt32();
      var mode :- ReadMode();
      var retval :- ReadInt32();
      var info :- ReadInfo();
      r := Some(Open(name, flags, mode, retval, info));
    }

    method ReadClose() returns (r: Option<Op>)
      requires Valid()
      modifies this`pos
      ensures Valid() && As(GetClose(old(Rest())), r, Rest())
    {
      hide Get32, Get64, GetMode, GetName, GetInfo;
      var fd :- ReadInt32();
      var retval :- ReadInt32();
      var info :- ReadInfo();
      r := Some(Close(fd, retval, info));
    }

    method ReadUnlink() returns (r: Option<Op>)
      requires Valid()
      modifies this`pos
      ensures Valid() && As(GetUnlink(old(Rest())), r, Rest())
    {
      hide Get32, Get64, GetMode, GetName, GetInfo;
      var name :- ReadName();
      var retval :- ReadInt32();
      var info :- ReadInfo();
      r := Some(Unlink(name, retval, info));
    }

    method ReadLseek() returns (r: Option<Op>)
      requires Valid()
      modifies this`pos
      ensures Valid() && As(GetLseek(old(Rest())), r, Rest())
    {
      hide Get32, Get64, GetMode, GetName, GetInfo;
      var fd :- ReadInt32();
      var flag :- ReadInt32();
      var offset :- ReadInt64();
      var retval :- ReadInt64();
      var info :- ReadInfo();
      r := Some(Lseek(fd, flag, offset, retval, info));
    }

    method ReadLlseek() returns (r: Option<Op>)
      requires Valid()
      modifies this`pos
      ensures Valid() && As(GetLlseek(old(Rest())), r, Rest())
    {
      hide Get32, Get64, GetMode, GetName, GetInfo;
      var fd :- ReadInt32();
      var offset :- ReadInt64();
      var fOffset :- ReadInt64();
      var flag :- ReadInt32();
      var retval :- ReadInt64();
      var info :- ReadInfo();
      r := Some(Llseek(fd, offset, fOffset, flag, retval, info));
    }

    method ReadClone() returns (r: Option<Op>)
      requires Valid()
      modifies this`pos
      ensures Valid() && As(GetClone(old(Rest())), r, Rest())
    {
      hide Get32, Get64, GetMode, GetName, GetInfo;
      var mode :- ReadMode();
      var retval :- ReadInt32();
      var info :- ReadInfo();
      r := Some(Clone(mode, retval, info));
    }

    method ReadMkdir() returns (r: Option<Op>)
      requires Valid()
      modifies this`pos
      ensures Valid() && As(GetMkdir(old(Rest())), r, Rest())
    {
      hide Get32, Get64, GetMode, GetName, GetInfo;
      var name :- ReadName();
      var mode :- ReadMode();
      var retval :- ReadInt32();
      var info :- ReadInfo();
      r := Some(Mkdir(name, mode, retval, info));
    }

    method ReadRmdir() returns (r: Option<Op>)
      requires Valid()
      modifies this`pos
      ensures Valid() && As(GetRmdir(old(Rest())), r, Rest())
    {
      hide Get32, Get64, GetMode, GetName, GetInfo;
      var name :- ReadName();
      var retval :- ReadInt32();
      var info :- ReadInfo();
      r := Some(RmdirAsMkdir(name, retval, info));
    }

    method ReadDup(tag: byte) returns (r: Option<Op>)
      requires Valid()
      modifies this`pos
      ensures Valid() && As(GetDup(tag, old(Rest())), r, Rest())
    {
      hide Get32, Get64, GetMode, GetName, GetInfo;
      var newFd :- ReadInt32();
      var oldFd :- ReadInt32();
      var flags :- ReadInt32();
      var retval :- ReadInt32();
      var info :- ReadInfo();
      r := Some(Dup(tag, newFd, oldFd, flags, retval, info));
    }

    method ReadPipe() returns (r: Option<Op>)
      requires Valid()
      modifies this`pos
      ensures Valid() && As(GetPipe(old(Rest())), r, Rest())
    {
      hide Get32, Get64, GetMode, GetName, GetInfo;
      var fd1 :- ReadInt32();
      var fd2 :- ReadInt32();
      var mode :- ReadMode();
      var retval :- ReadInt32();
      var info :- ReadInfo();
      r := Some(Pipe(fd1, fd2, mode, retval, info));
    }

    method ReadAccess() returns (r: Option<Op>)
      requires Valid()
      modifies this`pos
      ensures Valid() && As(GetAccess(old(Rest())), r, Rest())
    {
      hide Get32, Get64, GetMode, GetName, GetInfo;
      var name :- ReadName();
      var mode :- ReadMode();
      var retval :- ReadInt32();
      var info :- ReadInfo();
      r := Some(Access(name, mode, retval, info));
    }

    method ReadStat() returns (r: Option<Op>)
      requires Valid()
      modifies this`pos
      ensures Valid() && As(GetStat(old(Rest())), r, Rest())
    {
      hide Get32, Get64, GetMode, GetName, GetInfo;
      var name :- ReadName();
      var retval :- ReadInt32();
      var info :- ReadInfo();
      r := Some(Stat(name, retval, info));
    }

    method ReadSocket() returns (r: Option<Op>)
      requires Valid()
      modifies this`pos
      ensures Valid() && As(GetSocket(old(Rest())), r, Rest())
    {
      hide Get32, Get64, GetMode, GetName, GetInfo;
      var retval :- ReadInt32();
      var info :- ReadInfo();
      r := Some(Socket(retval, info));
    }

    method ReadSendfile() returns (r: Option<Op>)
      requires Valid()
      modifies this`pos
      ensures Valid() && As(GetSendfile(old(Rest())), r, Rest())
    {
      hide Get32, Get64, GetMode, GetName, GetInfo;
      var outFd :- ReadInt32();
      var inFd :- ReadInt32();
      var offset :- ReadInt64();
      var size :- ReadInt64();
      var retval :- ReadInt64();
      var info :- ReadInfo();
      r := Some(Sendfile(outFd, inFd, offset, size, retval, info));
    }

    method ReadItem(c: byte) returns (r: Option<Op>)
      requires Valid()
      modifies this`pos
      ensures Valid() && As(Get(c, old(Rest())), r, Rest())
    {
      hide GetWrite, GetRead, GetPwrite, GetPread, GetOpen, GetClose, GetUnlink, GetLseek, GetLlseek, GetClone,
        GetMkdir, GetRmdir, GetDup, GetPipe, GetAccess, GetStat, GetSocket, GetSendfile;
      if c == OP_WRITE {
        r := ReadWrite();
      } else if c == OP_READ {
        r := ReadRead();
      } else if c == OP_PWRITE {
        r := ReadPwrite();
      } else if c == OP_PREAD {
        r := ReadPread();
      } else if c == OP_OPEN {
        r := ReadOpen();
      } else if c == OP_CLOSE {
        r := ReadClose();
      } else if c == OP_UNLINK {
        r := ReadUnlink();
      } else if c == OP_LSEEK {
        r := ReadLseek();
      } else if c == OP_LLSEEK {
        r := ReadLlseek();
      } else if c == OP_CLONE {
        r := ReadClone();
      } else if c == OP_MKDIR {
        r := ReadMkdir();
      } else if c == OP_RMDIR {
        r := ReadRmdir();
      } else if c == OP_DUP || c == OP_DUP2 || c == OP_DUP3 {
        r := ReadDup(c);
      } else if c == OP_PIPE {
        r := ReadPipe();
      } else if c == OP_ACCESS {
        r := ReadAccess();
      } else if c == OP_STAT {
        r := ReadStat();
      } else if c == OP_SOCKET {
        r := ReadSocket();
      } else if c == OP_SENDFILE {
        r := ReadSendfile();
      } else {
        r := None;
      }
    }

    /** bin_get_items: reads records until the end of the file, or the byte that getc's result confuses with it. */
    method GetItems() returns (rv: int, ops: seq<Op>)
      requires Valid()
      modifies this`pos
      ensures (rv, ops) == GetAll(old(Rest()))
    {
      hide Get;
      ops := [];
      assert [] + GetAll(Rest()).1 == GetAll(Rest()).1;
      while pos < |data| && data[pos] != EOF_BYTE
        invariant Valid()
        invariant GetAll(old(Rest())) == (GetAll(Rest()).0, ops + GetAll(Rest()).1)
        decreases |Rest()|
      {
        var c := data[pos];
        assert Rest()[1..] == data[pos + 1..];
        ghost var more := GetAll(Rest());
        pos := pos + 1;
        var r := ReadItem(c);
        if r.None? {
          assert ops + [] == ops;
          return -1, ops;
        }
        assert ops + ([r.value] + GetAll(Rest()).1) == ops + [r.value] + GetAll(Rest()).1;
        ops := ops + [r.value];
      }
      assert ops + [] == ops;
      rv := 0;
    }
  }

  /** Saving a trace and reading the file gives the trace back, exactly when it has no rmdir. */
  method SaveAndLoad(ops: seq<Op>) returns (rv: int, back: seq<Op>)
    requires AllFit(ops)
    ensures rv == 0 && back == ops <==> NoRmdir(ops)
  {
    var f := new File([]);
    f.SaveItems(ops);
    RoundTripExact(ops);
    rv, back := f.GetItems();
  }
}
