/** What lines in strace's format are taken for: pid, time stamp, the name of the call, and the marks of a call that
    strace split in two. */
module StraceFormat {
  import opened Options
  import opened PathText
  import opened StraceLines

  predicate Digits(s: string) {
    s != "" && forall i :: 0 <= i < |s| ==> '0' <= s[i] <= '9'
  }

  /** A name as it can stand in a line: no bracket or space in it, and at its start nothing of a stamp. */
  predicate CallName(s: string) {
    && s != "" && '(' !in s && ' ' !in s
    && s[0] !in {'.', '<'} && !('\t' <= s[0] <= '\r') && !('0' <= s[0] <= '9')
  }

  /** How a line starts: pid, seconds and microseconds. */
  datatype Start = Start(pid: nat, sec: string, usec: string)

  predicate Good(h: Start) {
    Digits(h.sec) && Digits(h.usec)
  }

  function Stamp(h: Start): string {
    Decimal(h.pid) + " " + h.sec + "." + h.usec + " "
  }

  /** The line of a call, or of one resumed. */
  function Line(h: Start, resumed: bool, name: string, stop: char, rest: string): string {
    Stamp(h) + (if resumed then "<... " else "") + name + [stop] + rest
  }

  predicate StampChars(s: string) {
    forall i :: 0 <= i < |s| ==> '0' <= s[i] <= '9' || s[i] == ' ' || s[i] == '.' || s[i] == '<'
  }

  lemma StampIsStamp(h: Start, resumed: bool)
    requires Good(h)
    ensures StampChars(Stamp(h) + if resumed then "<... " else "")
  {
    DecimalIsDigits(h.pid);
  }

  // ---------- the pid ----------

  /** The digits of n. */
  function Decimal(n: nat): string {
    (if n < 10 then "" else Decimal(n / 10)) + [(n % 10) as char + '0']
  }

  lemma {:induction false} DecimalIsDigits(n: nat)
    ensures Digits(Decimal(n))
  {
    if n >= 10 {
      DecimalIsDigits(n / 10);
    }
  }

  lemma {:induction false} NumberOf(n: nat, rest: string)
    ensures Number(Decimal(n) + rest, 0) == Number(rest, n)
    decreases n
  {
    var d := [(n % 10) as char + '0'];
    assert Number(d + rest, n / 10) == Number(rest, n) by {
      assert (d + rest)[1..] == rest;
    }
    if n >= 10 {
      assert Decimal(n) + rest == Decimal(n / 10) + (d + rest);
      NumberOf(n / 10, d + rest);
    } else {
      assert Decimal(n) + rest == d + rest;
    }
  }

  /** A line that starts with the digits of n is one of pid n. */
  lemma PidIs(n: nat, rest: string, stray: int)
    requires rest == "" || !('0' <= rest[0] <= '9')
    ensures PidOf(Decimal(n) + rest, stray) == n
  {
    DecimalIsDigits(n);
    NumberOf(n, rest);
    var line := Decimal(n) + rest;
    assert line[0] == Decimal(n)[0];
    assert SkipSpaces(line) == line;
  }

  // ---------- the name of the call ----------

  lemma {:induction false} SkipsStamp(a: string, rest: string)
    requires StampChars(a)
    ensures SkipStamp(a + rest) == SkipStamp(rest)
  {
    if a != "" {
      assert (a + rest)[1..] == a[1..] + rest;
      SkipsStamp(a[1..], rest);
    } else {
      assert a + rest == rest;
    }
  }

  lemma {:induction false} UpToStop(name: string, stop: char, rest: string)
    requires '(' !in name && ' ' !in name && (stop == '(' || stop == ' ')
    ensures UpToCall(name + [stop] + rest) == name
  {
    if name != "" {
      assert (name + [stop] + rest)[1..] == name[1..] + [stop] + rest;
      UpToStop(name[1..], stop, rest);
      assert name[0] in name && forall c :: c in name[1..] ==> c in name;
    }
  }

  /** Pid and name of a line are those it was made of. */
  lemma PidAndOperation(h: Start, resumed: bool, name: string, stop: char, rest: string, stray: int)
    requires Good(h) && CallName(name) && (stop == '(' || stop == ' ')
    ensures Operation(Line(h, resumed, name, stop, rest)) == name
    ensures PidOf(Line(h, resumed, name, stop, rest), stray) == h.pid
  {
    var call := name + [stop] + rest;
    StampIsStamp(h, resumed);
    var a := Stamp(h) + if resumed then "<... " else "";
    hide *;
    LineIs(h, resumed, name, stop, rest);
    SkipsStamp(a, call);
    NotSkipped(name, stop, rest);
    UpToStop(name, stop, rest);
    OperationFrom(a + call, call);
    var more := " " + (h.sec + "." + h.usec + " " + (if resumed then "<... " else "") + call);
    PidIs(h.pid, more, stray);
  }

  lemma LineIs(h: Start, resumed: bool, name: string, stop: char, rest: string)
    ensures var call := name + [stop] + rest; var a := Stamp(h) + if resumed then "<... " else "";
      && Line(h, resumed, name, stop, rest) == a + call
      && a + call == Decimal(h.pid) + (" " + (h.sec + "." + h.usec + " " + (if resumed then "<... " else "") + call))
  {
    hide Decimal;
  }

  lemma NotSkipped(name: string, stop: char, rest: string)
    requires CallName(name)
    ensures SkipStamp(name + [stop] + rest) == name + [stop] + rest && '(' !in name && ' ' !in name
  {
    assert (name + [stop] + rest)[0] == name[0] && name[0] in name;
  }

  lemma OperationFrom(line: string, call: string)
    requires SkipStamp(line) == call
    ensures Operation(line) == UpToCall(call)
  {
  }

  // ---------- the calls ----------

  /** The calls that are parsed. */
  predicate Listed(name: string) {
    name == "write" || name == "read" || name == "pwrite" || name == "pwrite64" || name == "pread" ||
    name == "pread64" || name == "close" || name == "open" || name == "creat" || name == "unlink" ||
    name == "lseek" || name == "_llseek" || name == "pipe" || name == "dup3" || name == "dup2" || name == "dup" ||
    name == "mkdir" || name == "clone" || name == "access" || name == "stat64" || name == "stat" ||
    name == "socket" || name == "sendfile" || name == "fcntl"
  }

  /** A name is understood exactly if it is listed, which pipe2 is not. */
  lemma UnderstoodExactly(name: string)
    ensures CodeOf(name) != '?' <==> Listed(name)
  {
    Pipe2IsNot();
  }

  lemma Pipe2IsNot()
    ensures !Listed("pipe2")
  {
    var p := "pipe2";
    assert |p| == 5 && p[0] == 'p' && p[1] == 'i';
    var w, c, e, o, l, m, n, f := "write", "close", "creat", "pread", "lseek", "mkdir", "clone", "fcntl";
    assert w[0] == 'w' && c[0] == 'c' && e[0] == 'c' && o[1] == 'r' && l[0] == 'l' && m[0] == 'm'
      && n[0] == 'c' && f[0] == 'f';
  }

  /** Characters of names; and no "su" in them. */
  predicate Plain(name: string) {
    && name != "" && !('0' <= name[0] <= '9')
    && (forall i :: 0 <= i < |name| ==> 'a' <= name[i] <= 'z' || '0' <= name[i] <= '9' || name[i] == '_')
    && (forall i :: 0 < i < |name| && name[i] == 'u' ==> name[i - 1] != 's')
  }

  lemma Plain0(name: string)
    requires
      name == "write" || name == "read" || name == "pwrite" || name == "pwrite64" || name == "pread" ||
      name == "pread64"
    ensures Plain(name)
  {
  }

  lemma Plain1(name: string)
    requires
      name == "close" || name == "open" || name == "creat" || name == "unlink" || name == "lseek" ||
      name == "_llseek"
    ensures Plain(name)
  {
  }

  lemma Plain2(name: string)
    requires
      name == "pipe" || name == "dup3" || name == "dup2" || name == "dup" || name == "mkdir" || name == "clone"
    ensures Plain(name)
  {
  }

  lemma Plain3(name: string)
    requires
      name == "access" || name == "stat64" || name == "stat" || name == "socket" || name == "sendfile" ||
      name == "fcntl"
    ensures Plain(name)
  {
  }

  lemma ListedIsName(name: string)
    requires Listed(name)
    ensures Plain(name) && CallName(name)
  {
    hide Plain;
    if name == "write" || name == "read" || name == "pwrite" || name == "pwrite64" || name == "pread" ||
      name == "pread64" {
      Plain0(name);
    } else if name == "close" || name == "open" || name == "creat" || name == "unlink" || name == "lseek" ||
      name == "_llseek" {
      Plain1(name);
    } else if name == "pipe" || name == "dup3" || name == "dup2" || name == "dup" || name == "mkdir" ||
      name == "clone" {
      Plain2(name);
    } else {
      Plain3(name);
    }
    PlainIsName(name);
  }

  lemma PlainIsName(name: string)
    requires Plain(name)
    ensures CallName(name)
  {
  }

  // ---------- lines ----------

  /** What is made of a line that is not resumed: a first half if it is of a listed call and marked so; and without a
      mark it comes out whole, if it is of a listed call. */
  lemma LineTaken(h: Start, name: string, stop: char, rest: string, st: State, stray: int)
    requires Good(h) && CallName(name) && (stop == '(' || stop == ' ')
    ensures var line := Line(h, false, name, stop, rest);
      && (KindOf(line) == First <==> Listed(name) && Contains(line, "unfinished"))
      && (KindOf(line) == First ==>
            Process(line, st, stray)
              == Some(if h.pid in st.pending then st else State(st.pending[h.pid := line], st.out)))
      && (!Contains(line, "unfinished") && !Contains(line, "resumed") ==>
            && KindOf(line) == Whole
            && Process(line, st, stray) == Some(State(st.pending, if Listed(name) then st.out + [line] else st.out)))
  {
    PidAndOperation(h, false, name, stop, rest, stray);
    UnderstoodExactly(name);
    hide Line, PidOf, CodeOf, Operation, Listed, Find;
  }

  /** No "resumed" starts before the mark of a resumed call. */
  lemma ResumedAt(h: Start, name: string, tail: string)
    requires Good(h) && Plain(name)
    ensures var line, i := Line(h, true, name, ' ', "resumed> " + tail), |Stamp(h)| + 5 + |name| + 1;
      && Find(line, "resumed") == Some(i) && Find(line, "resumed> ") == Some(i)
      && i + 9 <= |line| && line[i + 9..] == tail && line[..i] == Stamp(h) + "<... " + name + " "
  {
    var a, line := Stamp(h) + "<... " + name + " ", Line(h, true, name, ' ', "resumed> " + tail);
    var i := |a|;
    assert line == a + ("resumed> " + tail);
    assert line[i..i + 9] == "resumed> " && line[i + 9..] == tail;
    MarkHasWord(line, i);
    StampIsStamp(h, true);
    var b := Stamp(h) + "<... ";
    assert a == b + name + " ";
    assert forall k :: 0 <= k < |b| ==> a[k] == b[k];
    assert forall k :: 0 <= k < |name| ==> a[|b| + k] == name[k];
    forall k: nat | k < i ensures !At(line, "resumed", k) && !At(line, "resumed> ", k) {
      NotBefore(line, a, b, name, k);
    }
    hide Stamp, At, Plain, StampChars;
    FindIs(line, "resumed", i);
    FindIs(line, "resumed> ", i);
  }

  lemma FindIs(s: string, p: string, i: nat)
    requires At(s, p, i) && forall k: nat :: k < i ==> !At(s, p, k)
    ensures Find(s, p) == Some(i)
  {
    hide At;
  }

  lemma NotBefore(line: string, a: string, b: string, name: string, k: nat)
    requires StampChars(b) && Plain(name) && a == b + name + " " && k < |a|
    requires |line| >= |a| + 9 && line[..|a|] == a && line[|a|..|a| + 9] == "resumed> "
    ensures !At(line, "resumed", k) && !At(line, "resumed> ", k)
  {
    var u := k + 3;
    assert u >= |a| ==> line[u] == "resumed> "[u - |a|] by {
      assert u >= |a| ==> line[u] == line[|a|..|a| + 9][u - |a|];
    }
    assert u < |a| ==> line[u] == a[u] && line[u - 1] == a[u - 1];
    assert |b| < u <= |b| + |name| - 1 ==> a[u] == name[u - |b|] && a[u - 1] == name[u - |b| - 1];
    assert line[u] != 'u' || line[u - 1] != 's';
    if line[u] != 'u' {
      NotAt(line, "resumed", k, 3);
      NotAt(line, "resumed> ", k, 3);
    } else {
      NotAt(line, "resumed", k, 2);
      NotAt(line, "resumed> ", k, 2);
    }
  }

  /** A resumed line is a second half if it is of a listed call, and passed over if not. */
  lemma ResumedTaken(h: Start, name: string, tail: string, stray: int)
    requires Good(h) && Plain(name)
    requires var line := Line(h, true, name, ' ', "resumed> " + tail); !Contains(line, "unfinished")
    ensures var line := Line(h, true, name, ' ', "resumed> " + tail);
      && KindOf(line) == (if Listed(name) then Second else Skipped)
      && Contains(line, "resumed") && Find(line, "resumed").value > 0
      && Hacked(line) == Line(h, true, name, '(', "resumed> " + tail)
      && PidOf(Hacked(line), stray) == h.pid
      && Find(Hacked(line), "resumed> ").Some?
      && Hacked(line)[Find(Hacked(line), "resumed> ").value + 9..] == tail
  {
    hide *;
    PlainIsName(name);
    var line, hacked := Line(h, true, name, ' ', "resumed> " + tail), Line(h, true, name, '(', "resumed> " + tail);
    var i := |Stamp(h)| + 5 + |name| + 1;
    ResumedAt(h, name, tail);
    StopReplaced(h, name, "resumed> " + tail);
    HackedIs(line, i);
    PidAndOperation(h, true, name, '(', "resumed> " + tail, stray);
    UnderstoodExactly(name);
    HackMoves(line, "resumed> ", i - 1, '(', i);
    KindOfResumed(line, name);
  }

  lemma StopReplaced(h: Start, name: string, rest: string)
    ensures var i := |Stamp(h)| + 5 + |name|;
      i < |Line(h, true, name, ' ', rest)| && Line(h, true, name, ' ', rest)[i := '('] == Line(h, true, name, '(', rest)
  {
    hide Stamp;
  }

  lemma HackedIs(line: string, i: nat)
    requires Find(line, "resumed") == Some(i) && 0 < i <= |line|
    ensures Contains(line, "resumed") && Hacked(line) == line[i - 1 := '(']
  {
    hide Find;
  }

  lemma KindOfResumed(line: string, name: string)
    requires !Contains(line, "unfinished") && Contains(line, "resumed") && Find(line, "resumed").value > 0
    requires Operation(Hacked(line)) == name && (CodeOf(name) != '?' <==> Listed(name))
    ensures KindOf(line) == if Listed(name) then Second else Skipped
  {
    hide Find, Operation, CodeOf, Listed, Hacked;
  }

  /** A call that strace split in two comes out as one line, at the place of its second half: all there was before the
      first mark, and all there was after the second. */
  lemma SplitCall(h1: Start, h2: Start, name: string, args: string, end: string, tail: string, st: State, stray: int)
    requires Good(h1) && Good(h2) && h1.pid == h2.pid && Listed(name) && h1.pid !in st.pending
    requires !Contains(Line(h1, false, name, '(', args), " <unfinished ...>")
    requires !Contains(Line(h2, true, name, ' ', "resumed> " + tail), "unfinished")
    requires var whole := Line(h1, false, name, '(', args + tail);
      !Contains(whole, "unfinished") && !Contains(whole, "resumed")
    ensures var first := Line(h1, false, name, '(', args + " <unfinished ...>" + end);
      var half := State(st.pending[h1.pid := first], st.out);
      && Process(first, st, stray) == Some(half)
      && Process(Line(h2, true, name, ' ', "resumed> " + tail), half, stray)
        == Some(State(st.pending, st.out + [Line(h1, false, name, '(', args + tail)]))
  {
    ListedIsName(name);
    hide *;
    var head, whole := Line(h1, false, name, '(', args), Line(h1, false, name, '(', args + tail);
    var first := Line(h1, false, name, '(', args + " <unfinished ...>" + end);
    var second := Line(h2, true, name, ' ', "resumed> " + tail);
    LineParts(h1, name, args, tail, end);
    MarkedIs(head, end);
    LineTaken(h1, name, '(', args + " <unfinished ...>" + end, st, stray);
    LineTaken(h1, name, '(', args + tail, st, stray);
    ResumedTaken(h2, name, tail, stray);
    SecondIs(second, first, h1.pid, head, tail, st, stray);
  }

  lemma LineParts(h: Start, name: string, args: string, tail: string, end: string)
    ensures var head := Line(h, false, name, '(', args);
      && Line(h, false, name, '(', args + tail) == head + tail
      && Line(h, false, name, '(', args + " <unfinished ...>" + end) == head + " <unfinished ...>" + end
  {
    hide Stamp;
  }

  lemma MarkedIs(head: string, end: string)
    requires !Contains(head, " <unfinished ...>")
    ensures var first := head + " <unfinished ...>" + end;
      Find(first, " <unfinished ...>") == Some(|head|) && first[..|head|] == head && Contains(first, "unfinished")
  {
    hide *;
    var first := head + " <unfinished ...>" + end;
    MarkAt(head, end);
    FindIs(first, " <unfinished ...>", |head|);
    UnfinishedIn(first, |head|);
  }

  lemma MarkAt(head: string, end: string)
    requires !Contains(head, " <unfinished ...>")
    ensures var first := head + " <unfinished ...>" + end;
      && At(first, " <unfinished ...>", |head|) && first[..|head|] == head
      && forall k: nat :: k < |head| ==> !At(first, " <unfinished ...>", k)
  {
    FirstAt(head, " <unfinished ...>", end, 12);
    hide At;
  }

  lemma UnfinishedIn(first: string, i: nat)
    requires At(first, " <unfinished ...>", i)
    ensures Contains(first, "unfinished")
  {
    var mark := " <unfinished ...>";
    assert mark[2..12] == "unfinished";
    assert first[i + 2..i + 12] == first[i..i + |mark|][2..12];
    assert At(first, "unfinished", i + 2);
    hide At;
  }

  lemma SecondIs(second: string, first: string, pid: nat, head: string, tail: string, st: State, stray: int)
    requires KindOf(second) == Second && PidOf(Hacked(second), stray) == pid && pid !in st.pending
    requires Find(first, " <unfinished ...>") == Some(|head|) && |head| <= |first| && first[..|head|] == head
    requires Find(Hacked(second), "resumed> ").Some?
    requires Find(Hacked(second), "resumed> ").value + 9 <= |Hacked(second)|
    requires Hacked(second)[Find(Hacked(second), "resumed> ").value + 9..] == tail
    ensures Process(second, State(st.pending[pid := first], st.out), stray) == Process(head + tail, st, stray)
  {
    var half := State(st.pending[pid := first], st.out);
    assert half.pending - {pid} == st.pending;
    Fewer(half.pending, pid);
    assert head + Hacked(second)[Find(Hacked(second), "resumed> ").value + 9..] == head + tail;
    hide Find, KindOf, PidOf, Understood, Hacked;
    assert Process(second, half, stray) == Resumed(Hacked(second), half, stray);
    assert Resumed(Hacked(second), half, stray) == Process(head + tail, st, stray);
  }
}
