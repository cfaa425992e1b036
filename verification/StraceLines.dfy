/** in_strace.c: lines of strace output, some of them halves of a call that was interrupted. */
module StraceLines {
  import opened Options
  import opened PathText
  import opened SetFacts
  import HashTable

  const OP_UNKNOWN := '?'

  const UNFINISHED := " <unfinished ...>"
  const RESUMED := "resumed> "

  const HASH_TABLE_SIZE := 1019

  // ---------- one line ----------

  predicate IsSpace(c: char) {
    c == ' ' || ('\t' <= c <= '\r')
  }

  predicate IsDigit(c: char) {
    '0' <= c <= '9'
  }

  /** Before the name of the call: pid, time stamp, and the "<... " of a resumed call. */
  predicate IsStamp(c: char) {
    IsSpace(c) || IsDigit(c) || c == '.' || c == '<'
  }

  function SkipStamp(line: string): string {
    if line != "" && IsStamp(line[0]) then SkipStamp(line[1..]) else line
  }

  function UpToCall(line: string): string {
    if line == "" || line[0] == '(' || line[0] == ' ' then "" else [line[0]] + UpToCall(line[1..])
  }

  /** strace_get_operation: the name of the call. */
  function Operation(line: string): string {
    UpToCall(SkipStamp(line))
  }

  /** strace_get_operation_code, for the name of a call. */
  function CodeOf(name: string): char {
    if name == "write" then 'w'
    else if name == "read" then 'r'
    else if name == "pwrite" || name == "pwrite64" then 'W'
    else if name == "pread" || name == "pread64" then 'P'
    else if name == "close" then 'c'
    else if name == "open" then 'o'
    else if name == "creat" then 'R'
    else if name == "unlink" then 'u'
    else if name == "lseek" then 'l'
    else if name == "_llseek" then 'L'
    else if name == "pipe2" then OP_UNKNOWN
    else if name == "pipe" then 'p'
    else if name == "dup3" then 'e'
    else if name == "dup2" then 'D'
    else if name == "dup" then 'd'
    else if name == "mkdir" then 'M'
    else if name == "clone" then 'C'
    else if name == "access" then 'a'
    else if name == "stat64" || name == "stat" then 's'
    else if name == "socket" then 'S'
    else if name == "sendfile" then 't'
    else if name == "fcntl" then 'f'
    else OP_UNKNOWN
  }

  predicate Understood(line: string) {
    CodeOf(Operation(line)) != OP_UNKNOWN
  }

  function SkipSpaces(s: string): string {
    if s != "" && IsSpace(s[0]) then SkipSpaces(s[1..]) else s
  }

  function Number(s: string, acc: int): int {
    if s != "" && IsDigit(s[0]) then Number(s[1..], 10 * acc + (s[0] - '0') as int) else acc
  }

  /** sscanf's %d at the start of the line; a line without a number leaves the variable as it was. */
  function PidOf(line: string, stray: int): int {
    var s := SkipSpaces(line);
    if s != "" && IsDigit(s[0]) then Number(s, 0)
    else if |s| >= 2 && (s[0] == '-' || s[0] == '+') && IsDigit(s[1]) then
      (if s[0] == '-' then -Number(s[1..], 0) else Number(s[1..], 0))
    else stray
  }

  // ---------- what a line is taken for ----------

  datatype Kind = Whole | First | Second | Skipped

  predicate Contains(line: string, word: string) {
    Find(line, word).Some?
  }

  /** The line with the character before "resumed" replaced, so that it ends the name of the call. */
  function Hacked(line: string): string
    requires Contains(line, "resumed") && Find(line, "resumed").value > 0
  {
    line[Find(line, "resumed").value - 1 := '(']
  }

  function KindOf(line: string): Kind {
    if Contains(line, "unfinished") && Understood(line) then First
    else if Contains(line, "resumed") && Find(line, "resumed").value > 0 then
      if Understood(Hacked(line)) then Second else Skipped
    else Whole
  }

  // ---------- what strace_process_line does with it ----------

  /** The calls begun and not resumed, by pid, and the lines handed on to be parsed. */
  datatype State = State(pending: map<int, string>, out: seq<string>)

  /** Looking a pid up in the table of pending calls: its hash function stops the program for a negative one. */
  predicate Hashable(pid: int) {
    HashTable.HashInt(HASH_TABLE_SIZE, pid).Some?
  }

  function Unfinished(line: string, st: State, stray: int): Option<State> {
    var pid := PidOf(line, stray);
    if !Hashable(pid) then None
    else Some(if pid in st.pending then st else st.(pending := st.pending[pid := line]))
  }

  /** The state after the line, or none if the program stops. */
  function Process(line: string, st: State, stray: int): Option<State>
    decreases |st.pending|, 1
  {
    match KindOf(line)
    case First => Unfinished(line, st, stray)
    case Second => Resumed(Hacked(line), st, stray)
    case Skipped => Some(st)
    case Whole => Some(if Understood(line) then st.(out := st.out + [line]) else st)
  }

  function Resumed(line: string, st: State, stray: int): Option<State>
    decreases |st.pending|, 0
  {
    var pid := PidOf(line, stray);
    if !Hashable(pid) then None
    else if pid !in st.pending then Some(st)
    else
      match Find(st.pending[pid], UNFINISHED)
      case None => Some(st)
      case Some(s) =>
        var head := st.pending[pid][..s];
        match Find(line, RESUMED)
        case None => Some(st.(pending := st.pending[pid := head]))
        case Some(k) =>
          Fewer(st.pending, pid);
          Process(head + line[k + |RESUMED|..], st.(pending := st.pending - {pid}), stray)
  }

  lemma Fewer(m: map<int, string>, pid: int)
    requires pid in m
    ensures |m - {pid}| < |m|
  {
    assert (m - {pid}).Keys == m.Keys - {pid};
  }

  function Run(lines: seq<string>, stray: int): Option<State> {
    if lines == [] then Some(State(map[], []))
    else
      match Run(lines[..|lines| - 1], stray)
      case None => None
      case Some(st) => Process(lines[|lines| - 1], st, stray)
  }

  // ---------- what the whole trace should come out as ----------

  /** The last line of a pid so far. */
  function LastOf(lines: seq<string>, pid: int, stray: int): Option<string> {
    if lines == [] then None
    else if PidOf(lines[|lines| - 1], stray) == pid then Some(lines[|lines| - 1])
    else LastOf(lines[..|lines| - 1], pid, stray)
  }

  /** The line without its interruption. */
  function Merge(first: string, second: string): string
    requires Contains(first, UNFINISHED) && Contains(second, RESUMED)
  {
    first[..Find(first, UNFINISHED).value] + second[Find(second, RESUMED).value + |RESUMED|..]
  }

  /** The halves carry their marks, and together make a line that is no half again. */
  predicate Halves(first: string, second: string, stray: int) {
    && Contains(first, UNFINISHED) && Contains(second, RESUMED) && KindOf(second) == Second
    && PidOf(Hacked(second), stray) == PidOf(second, stray)
    && KindOf(Merge(first, second)) == Whole
    && PidOf(Merge(first, second), stray) == PidOf(second, stray)
  }

  predicate Half(o: Option<string>) {
    o.Some? && KindOf(o.value) == First
  }

  /** In the lines of each pid, a first half is followed directly by its second half, and no second half stands
      alone. */
  predicate WellFormed(lines: seq<string>, stray: int) {
    lines == [] ||
    var init, last := lines[..|lines| - 1], lines[|lines| - 1];
    var before := LastOf(init, PidOf(last, stray), stray);
    && WellFormed(init, stray)
    && (Half(before) <==> KindOf(last) == Second)
    && (Half(before) ==> Halves(before.value, last, stray))
  }

  /** The line that comes out where `last` goes in. */
  function Contribution(init: seq<string>, last: string, stray: int): seq<string> {
    var before := LastOf(init, PidOf(last, stray), stray);
    var whole :=
      if KindOf(last) == Whole then [last]
      else if KindOf(last) == Second && Half(before) && Halves(before.value, last, stray) then
        [Merge(before.value, last)]
      else [];
    if whole != [] && Understood(whole[0]) then whole else []
  }

  /** The trace with every pair of halves replaced by the merged line, in the place of the second. */
  function Expected(lines: seq<string>, stray: int): seq<string> {
    if lines == [] then []
    else Expected(lines[..|lines| - 1], stray) + Contribution(lines[..|lines| - 1], lines[|lines| - 1], stray)
  }

  /** At most one half is pending per pid: the pid's last line, if that is a first half. */
  ghost predicate PendingIs(lines: seq<string>, pending: map<int, string>, stray: int) {
    forall pid ::
      if Half(LastOf(lines, pid, stray)) then pid in pending && pending[pid] == LastOf(lines, pid, stray).value
      else pid !in pending
  }

  /** Changing one character to one that the word lacks makes no new occurrence, and leaves those elsewhere. */
  lemma OtherChar(line: string, word: string, i: nat, c: char, k: nat)
    requires i < |line| && c !in word
    ensures At(line[i := c], word, k) <==> At(line, word, k) && !(k <= i < k + |word|)
  {
    var hacked := line[i := c];
    if k + |word| <= |line| {
      if k <= i < k + |word| {
        assert hacked[k..k + |word|][i - k] == c;
      } else {
        assert hacked[k..k + |word|] == line[k..k + |word|];
      }
    }
  }

  /** Hacking the line leaves its mark, and what follows it. */
  lemma HackKeepsMark(line: string)
    requires KindOf(line) == Second && Contains(line, RESUMED)
    ensures Contains(Hacked(line), RESUMED) && Find(Hacked(line), RESUMED) == Find(line, RESUMED)
    ensures var i := Find(line, RESUMED).value + |RESUMED|; i <= |line| && Hacked(line)[i..] == line[i..]
  {
    var i, j := Find(line, "resumed").value, Find(line, RESUMED).value;
    MarkHasWord(line, j);
    HackMoves(line, RESUMED, i - 1, '(', j);
  }

  /** A character changed before the first occurrence, to one the word lacks, leaves that occurrence the first. */
  lemma HackMoves(line: string, word: string, i: nat, c: char, j: nat)
    requires Find(line, word) == Some(j) && i < j && c !in word
    ensures i < |line| && j + |word| <= |line|
    ensures Find(line[i := c], word) == Some(j) && line[i := c][j + |word|..] == line[j + |word|..]
  {
    AtFits(line, word, j);
    hide At, FindFrom;
    OtherChar(line, word, i, c, j);
    var hacked := line[i := c];
    forall k: nat | k < j ensures !At(hacked, word, k) {
      OtherChar(line, word, i, c, k);
    }
  }

  lemma AtFits(s: string, p: string, k: nat)
    requires At(s, p, k)
    ensures k + |p| <= |s|
  {
  }

  lemma MarkHasWord(line: string, j: nat)
    requires At(line, RESUMED, j)
    ensures At(line, "resumed", j)
  {
    assert line[j..j + |"resumed"|] == line[j..j + |RESUMED|][..|"resumed"|] == "resumed";
  }

  lemma LastOfSnoc(lines: seq<string>, last: string, pid: int, stray: int)
    ensures LastOf(lines + [last], pid, stray)
      == if PidOf(last, stray) == pid then Some(last) else LastOf(lines, pid, stray)
  {
    assert (lines + [last])[..|lines|] == lines;
  }

  lemma PendingSnoc(lines: seq<string>, last: string, stray: int, old': map<int, string>, new': map<int, string>)
    requires PendingIs(lines, old', stray)
    requires forall q :: q != PidOf(last, stray) ==> (q in new' <==> q in old') && (q in old' ==> new'[q] == old'[q])
    requires var pid := PidOf(last, stray);
      if KindOf(last) == First then pid in new' && new'[pid] == last else pid !in new'
    ensures PendingIs(lines + [last], new', stray)
  {
    hide KindOf, PidOf;
    forall q
      ensures LastOf(lines + [last], q, stray)
        == if PidOf(last, stray) == q then Some(last) else LastOf(lines, q, stray)
    {
      LastOfSnoc(lines, last, q, stray);
    }
  }

  /** A second half meets its first half: the merged line is all that comes of it. */
  lemma MergedLine(first: string, second: string, st: State, stray: int)
    requires KindOf(second) == Second && Halves(first, second, stray)
    requires PidOf(second, stray) in st.pending && st.pending[PidOf(second, stray)] == first
    ensures var line := Merge(first, second);
      Process(second, st, stray) == if !Hashable(PidOf(second, stray)) then None
        else Some(State(st.pending - {PidOf(second, stray)}, if Understood(line) then st.out + [line] else st.out))
  {
    HackKeepsMark(second);
    assert Contains(first, UNFINISHED) && Contains(second, RESUMED);
    assert PidOf(Hacked(second), stray) == PidOf(second, stray) && KindOf(Merge(first, second)) == Whole;
    hide KindOf, PidOf, Understood, Find, Hacked, Halves;
    var pid, line := PidOf(second, stray), Merge(first, second);
    var rest := st.(pending := st.pending - {pid});
    Fewer(st.pending, pid);
    assert Process(second, st, stray) == Resumed(Hacked(second), st, stray);
    hide Hashable;
    assert Resumed(Hacked(second), st, stray) == if Hashable(pid) then Process(line, rest, stray) else None;
  }

  /** A half of a call, for which a pid is looked up that the hash function does not take. */
  predicate Stops(line: string, stray: int) {
    (KindOf(line) == First || KindOf(line) == Second) && PidOf(line, stray) < 0
  }

  /** One more line: whether the program stops, what is pending, and what comes out. */
  lemma OneLine(lines: seq<string>, last: string, stray: int, st: State)
    requires WellFormed(lines + [last], stray) && PendingIs(lines, st.pending, stray)
    ensures Process(last, st, stray).None? <==> Stops(last, stray)
    ensures !Stops(last, stray) ==>
      var u := Process(last, st, stray).value;
      PendingIs(lines + [last], u.pending, stray) && u.out == st.out + Contribution(lines, last, stray)
  {
    assert (lines + [last])[..|lines|] == lines;
    var pid := PidOf(last, stray);
    var before := LastOf(lines, pid, stray);
    if KindOf(last) == Second {
      MergedLine(before.value, last, st, stray);
    }
    assert WellFormed(lines, stray) && (Half(before) <==> KindOf(last) == Second);
    assert Half(before) <==> pid in st.pending;
    assert Half(before) ==> Halves(before.value, last, stray);
    if !Stops(last, stray) {
      var u := Process(last, st, stray).value;
      hide PidOf, Understood, LastOf, Halves, WellFormed, KindOf;
      PendingSnoc(lines, last, stray, st.pending, u.pending);
    }
  }

  /** On every well-formed interleaving the program stops exactly at a half with a negative pid; without one, it puts
      every call together again. */
  lemma {:induction false} Reassembled(lines: seq<string>, stray: int)
    requires WellFormed(lines, stray)
    ensures Run(lines, stray).None? <==> exists i :: 0 <= i < |lines| && Stops(lines[i], stray)
    ensures Run(lines, stray).Some? ==>
      Run(lines, stray).value.out == Expected(lines, stray) && PendingIs(lines, Run(lines, stray).value.pending, stray)
  {
    if lines != [] {
      var init, last := lines[..|lines| - 1], lines[|lines| - 1];
      assert lines == init + [last];
      Reassembled(init, stray);
      assert WellFormed(init, stray);
      hide Process, Stops, Contribution, PendingIs, WellFormed;
      StopsSnoc(init, last, stray);
      if Run(init, stray).Some? {
        OneLine(init, last, stray, Run(init, stray).value);
      }
    } else {
      NothingYet(stray);
    }
  }

  lemma StopsSnoc(init: seq<string>, last: string, stray: int)
    ensures (exists i :: 0 <= i < |init + [last]| && Stops((init + [last])[i], stray))
      <==> (exists i :: 0 <= i < |init| && Stops(init[i], stray)) || Stops(last, stray)
  {
    hide Stops;
    var lines := init + [last];
    assert lines[|init|] == last && forall i :: 0 <= i < |init| ==> lines[i] == init[i];
    if i :| 0 <= i < |init| && Stops(init[i], stray) {
      assert Stops(lines[i], stray);
    }
  }

  lemma NothingYet(stray: int)
    ensures PendingIs([], map[], stray)
  {
  }

  /** Nothing is pending at the end exactly when no pid's lines end in a first half. */
  lemma NothingPending(lines: seq<string>, stray: int)
    requires WellFormed(lines, stray) && Run(lines, stray).Some?
    ensures forall pid :: pid in Run(lines, stray).value.pending <==> Half(LastOf(lines, pid, stray))
    ensures Run(lines, stray).value.pending == map[] <==> forall pid :: !Half(LastOf(lines, pid, stray))
  {
    Reassembled(lines, stray);
    hide Run, LastOf, WellFormed, Half;
    var pending := Run(lines, stray).value.pending;
    forall pid ensures pid in pending <==> Half(LastOf(lines, pid, stray)) {
    }
    if pending != map[] {
      var pid := SomeKey(pending);
      assert Half(LastOf(lines, pid, stray));
    }
  }

  // ---------- interleavings ----------

  /** The lines of one pid, in their order. */
  function Of(lines: seq<string>, pid: int, stray: int): seq<string> {
    if lines == [] then []
    else Of(lines[..|lines| - 1], pid, stray) + if PidOf(lines[|lines| - 1], stray) == pid then [lines[|lines| - 1]]
      else []
  }

  lemma OfSnoc(lines: seq<string>, last: string, pid: int, stray: int)
    ensures Of(lines + [last], pid, stray) == Of(lines, pid, stray) + if PidOf(last, stray) == pid then [last] else []
  {
    assert (lines + [last])[..|lines|] == lines;
  }

  /** A line comes out under the pid under which it goes in. */
  lemma OfContribution(init: seq<string>, last: string, pid: int, stray: int)
    ensures Of(Expected(init, stray) + Contribution(init, last, stray), pid, stray)
      == Of(Expected(init, stray), pid, stray)
         + if PidOf(last, stray) == pid then Contribution(init, last, stray) else []
  {
    var c, e := Contribution(init, last, stray), Expected(init, stray);
    hide KindOf, PidOf, Understood, LastOf, Expected, Of;
    if c == [] {
      assert e + c == e;
    } else {
      assert c == [c[0]] && PidOf(c[0], stray) == PidOf(last, stray);
      OfSnoc(e, c[0], pid, stray);
    }
  }

  /** Each pid's lines come out as if they had been the whole trace: interleaving changes nothing, and each pid's
      order is kept. */
  lemma {:induction false} Interleaved(lines: seq<string>, pid: int, stray: int)
    requires WellFormed(lines, stray)
    ensures WellFormed(Of(lines, pid, stray), stray)
    ensures LastOf(Of(lines, pid, stray), pid, stray) == LastOf(lines, pid, stray)
    ensures Expected(Of(lines, pid, stray), stray) == Of(Expected(lines, stray), pid, stray)
  {
    if lines != [] {
      var init, last := lines[..|lines| - 1], lines[|lines| - 1];
      Interleaved(init, pid, stray);
      OfContribution(init, last, pid, stray);
      hide KindOf, PidOf, Understood, Halves;
      var own := Of(init, pid, stray);
      if PidOf(last, stray) == pid {
        assert (own + [last])[..|own|] == own;
      } else {
        assert own + [] == own;
      }
    }
  }

  lemma {:induction false} OfIn(lines: seq<string>, pid: int, stray: int, i: nat)
    requires i < |Of(lines, pid, stray)|
    ensures exists j :: 0 <= j < |lines| && lines[j] == Of(lines, pid, stray)[i]
  {
    var init := lines[..|lines| - 1];
    if i < |Of(init, pid, stray)| {
      OfIn(init, pid, stray, i);
      var j :| 0 <= j < |init| && init[j] == Of(init, pid, stray)[i];
      assert lines[j] == init[j];
    }
  }

  /** Run alone, each pid's lines give the lines of that pid. */
  lemma RunInterleaved(lines: seq<string>, pid: int, stray: int)
    requires WellFormed(lines, stray) && Run(lines, stray).Some?
    ensures Run(Of(lines, pid, stray), stray).Some?
    ensures Run(Of(lines, pid, stray), stray).value.out == Of(Run(lines, stray).value.out, pid, stray)
  {
    Interleaved(lines, pid, stray);
    Reassembled(lines, stray);
    var own := Of(lines, pid, stray);
    Reassembled(own, stray);
    hide Run, Of, WellFormed, Stops;
    forall i | 0 <= i < |own| ensures !Stops(own[i], stray) {
      OfIn(lines, pid, stray, i);
    }
  }

  lemma NotAt(s: string, p: string, k: nat, i: nat)
    requires i < |p| && (k + i < |s| ==> s[k + i] != p[i])
    ensures !At(s, p, k)
  {
    if k + |p| <= |s| {
      assert s[k..k + |p|][i] == s[k + i];
    }
  }

  /** A word that cannot overlap itself, because its first character does not come again in it, or is followed by
      another one there, stands first where it was put behind a text without it. */
  lemma FirstAt(a: string, word: string, b: string, next: nat)
    requires word != "" && !Contains(a, word)
    requires 0 < next ==> next + 1 < |word| && word[next + 1] != word[1]
    requires forall i :: 0 < i < |word| && word[i] == word[0] ==> i == next
    ensures Find(a + word + b, word) == Some(|a|)
  {
    var s := a + word + b;
    assert s[|a|..|a| + |word|] == word;
    assert At(s, word, |a|);
    forall k: nat | k < |a| ensures !At(s, word, k) {
      if k + |word| <= |a| {
        assert s[k..k + |word|] == a[k..k + |word|];
        assert !At(a, word, k);
      } else {
        var i := |a| - k;
        assert s[k + i] == word[0] && (|word| > 1 ==> s[k + i + 1] == word[1]);
        if word[i] != word[0] {
          NotAt(s, word, k, i);
        } else {
          NotAt(s, word, k, i + 1);
        }
      }
    }
  }

  /** What strace splits is joined again: the text before the first mark, and the text after the second. */
  lemma Rejoined(head: string, end: string, lead: string, tail: string)
    requires !Contains(head, UNFINISHED) && !Contains(lead, RESUMED)
    ensures Contains(head + UNFINISHED + end, UNFINISHED) && Contains(lead + RESUMED + tail, RESUMED)
    ensures Find(head + UNFINISHED + end, UNFINISHED) == Some(|head|)
    ensures Merge(head + UNFINISHED + end, lead + RESUMED + tail) == head + tail
  {
    var first, second := head + UNFINISHED + end, lead + RESUMED + tail;
    FirstAt(head, UNFINISHED, end, 12);
    FirstAt(lead, RESUMED, tail, 0);
    hide Find;
    assert first[..|head|] == head && second[|lead| + |RESUMED|..] == tail;
  }

  // ---------- step by step ----------

  /** strace_get_operation. */
  method GetOperation(line: string) returns (operation: string)
    ensures operation == Operation(line)
  {
    var c := 0;
    assert line[0..] == line;
    while c < |line| && IsStamp(line[c])
      invariant 0 <= c <= |line| && SkipStamp(line[c..]) == SkipStamp(line)
    {
      assert line[c..][1..] == line[c + 1..];
      c := c + 1;
    }
    operation := CopyOperation(line[c..]);
  }

  method CopyOperation(text: string) returns (operation: string)
    ensures operation == UpToCall(text)
  {
    hide UpToCall;
    var c := 0;
    operation := "";
    assert text[0..] == text;
    while c < |text| && text[c] != '(' && text[c] != ' '
      invariant 0 <= c <= |text| && operation + UpToCall(text[c..]) == UpToCall(text)
    {
      NextChar(text, c);
      assert operation + ([text[c]] + UpToCall(text[c + 1..])) == operation + [text[c]] + UpToCall(text[c + 1..]);
      operation := operation + [text[c]];
      c := c + 1;
    }
    CallStarts(text[c..]);
  }

  lemma NextChar(text: string, c: nat)
    requires c < |text| && text[c] != '(' && text[c] != ' '
    ensures UpToCall(text[c..]) == [text[c]] + UpToCall(text[c + 1..])
  {
    assert text[c..][1..] == text[c + 1..];
  }

  lemma CallStarts(text: string)
    requires text == "" || text[0] == '(' || text[0] == ' '
    ensures UpToCall(text) == ""
  {
  }

  /** The hash table of pending calls, and the list the lines end up on. */
  class Reassembler {
    const stray: int
    var pending: map<int, string>
    var out: seq<string>

    ghost function Now(): State
      reads this
    {
      State(pending, out)
    }

    constructor (stray: int)
      ensures this.stray == stray && Now() == State(map[], [])
    {
      this.stray := stray;
      pending := map[];
      out := [];
    }

    /** The outcome of a step, as a function gives it. */
    ghost predicate Did(r: Option<State>, ok: bool)
      reads this
    {
      match r
      case None => !ok
      case Some(st) => ok && Now() == st
    }

    method ReadUnfinished(line: string) returns (ok: bool)
      modifies this
      ensures Did(Unfinished(line, old(Now()), stray), ok)
    {
      var pid := PidOf(line, stray);
      if HashTable.HashInt(HASH_TABLE_SIZE, pid).None? {
        return false;
      }
      if pid !in pending {
        pending := pending[pid := line];
      }
      ok := true;
    }

    method ReadResumed(line: string) returns (ok: bool)
      modifies this
      ensures Did(Resumed(line, old(Now()), stray), ok)
      decreases |pending|, 0
    {
      hide PidOf, Find, KindOf, Understood;
      var pid := PidOf(line, stray);
      if HashTable.HashInt(HASH_TABLE_SIZE, pid).None? {
        return false;
      }
      if pid !in pending {
        return true;
      }
      var s := Find(pending[pid], UNFINISHED);
      if s.None? {
        return true;
      }
      var head := pending[pid][..s.value];
      pending := pending[pid := head];
      var k := Find(line, RESUMED);
      if k.None? {
        return true;
      }
      var buff := head + line[k.value + |RESUMED|..];
      Fewer(old(pending), pid);
      assert pending - {pid} == old(pending) - {pid};
      pending := pending - {pid};
      ok := ProcessLine(buff);
    }

    /** strace_process_line, up to where the line is handed on to the parser for its call. */
    method ProcessLine(line0: string) returns (ok: bool)
      modifies this
      ensures Did(Process(line0, old(Now()), stray), ok)
      decreases |pending|, 1
    {
      hide PidOf, Find, CodeOf, Operation;
      var line := line0;
      var operation := GetOperation(line);
      var c := CodeOf(operation);
      var unfinished := Find(line, "unfinished");
      if unfinished.Some? && c != OP_UNKNOWN {
        ok := ReadUnfinished(line);
        return;
      }
      ok := true;
      var s := Find(line, "resumed");
      if s.Some? && s.value != 0 {
        line := line[s.value - 1 := '('];
        operation := GetOperation(line);
        if CodeOf(operation) != OP_UNKNOWN {
          ok := ReadResumed(line);
        }
        return;
      }
      if c != OP_UNKNOWN {
        out := out + [line];
      }
    }

    /** The loop of strace_get_items. */
    method GetItems(lines: seq<string>) returns (ok: bool)
      requires Now() == State(map[], [])
      modifies this
      ensures Did(Run(lines, stray), ok)
      ensures WellFormed(lines, stray) ==> (ok <==> forall i :: 0 <= i < |lines| ==> !Stops(lines[i], stray))
      ensures WellFormed(lines, stray) && ok ==> out == Expected(lines, stray) && PendingIs(lines, pending, stray)
    {
      hide Process, WellFormed, PendingIs, Stops;
      var i := 0;
      assert lines[..0] == [];
      while i < |lines|
        invariant 0 <= i <= |lines| && Run(lines[..i], stray) == Some(Now())
      {
        assert lines[..i + 1][..i] == lines[..i];
        ok := ProcessLine(lines[i]);
        if !ok {
          StoppedEarly(lines, i + 1, stray);
          break;
        }
        i := i + 1;
      }
      ok := i == |lines|;
      assert lines[..|lines|] == lines;
      if WellFormed(lines, stray) {
        Reassembled(lines, stray);
      }
    }
  }

  /** A program that has stopped stays so. */
  lemma {:induction false} StoppedEarly(lines: seq<string>, n: nat, stray: int)
    requires n <= |lines| && Run(lines[..n], stray).None?
    ensures Run(lines, stray).None?
    decreases |lines|
  {
    if n == |lines| {
      assert lines[..n] == lines;
    } else {
      assert lines[..|lines| - 1][..n] == lines[..n];
      StoppedEarly(lines[..|lines| - 1], n, stray);
    }
  }
}
