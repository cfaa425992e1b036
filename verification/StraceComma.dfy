/** strace_pos_comma: the comma after a quoted argument in a line of strace output. */
module StraceComma {
  import opened Options
  import opened PathText

  /** Where the comma is; nowhere; or the scan leaves the line, for want of a closing quote. */
  datatype Comma = Comma(pos: nat) | NotFound | PastEnd

  const QUOTE := '"'
  const BACKSLASH := '\\'

  // ---------- which quote closes a string ----------

  /** The number of backslashes directly before position i. */
  function Backslashes(t: string, i: nat): (n: nat)
    requires i <= |t|
    ensures n <= i
  {
    if i > 0 && t[i - 1] == BACKSLASH then 1 + Backslashes(t, i - 1) else 0
  }

  /** A quote closes the string if the backslashes before it escape each other, and none is left for the quote. */
  predicate Closes(t: string, q: nat) {
    q < |t| && t[q] == QUOTE && Backslashes(t, q) % 2 == 0
  }

  predicate FirstClosing(t: string, q: nat) {
    Closes(t, q) && forall i :: 0 <= i < q ==> !Closes(t, i)
  }

  /** Plain characters, and pairs of a backslash and any character. */
  predicate Escaped(s: string) {
    s == "" || if s[0] == BACKSLASH then |s| >= 2 && Escaped(s[2..]) else s[0] != QUOTE && Escaped(s[1..])
  }

  lemma {:induction false} BackslashesShift(a: string, s: string, i: nat)
    requires i <= |s| && (a == "" || a[|a| - 1] != BACKSLASH)
    ensures Backslashes(a + s, |a| + i) == Backslashes(s, i)
  {
    if i > 0 && s[i - 1] == BACKSLASH {
      BackslashesShift(a, s, i - 1);
    }
  }

  /** Past a pair that starts with a backslash, only the parity of a run matters. */
  lemma {:induction false} BackslashesPair(s: string, i: nat)
    requires |s| >= 2 && s[0] == BACKSLASH && i <= |s| - 2
    ensures Backslashes(s, i + 2) % 2 == Backslashes(s[2..], i) % 2
  {
    if i > 0 {
      if s[i + 1] == BACKSLASH {
        BackslashesPair(s, i - 1);
      }
    } else {
      assert Backslashes(s, 1) == 1 + Backslashes(s, 0);
    }
  }

  /** Text is escaped exactly when no quote in it would close the string, and no backslash is left over at its end. */
  lemma {:induction false} EscapedExactly(s: string)
    ensures Escaped(s) <==> Backslashes(s, |s|) % 2 == 0 && forall i :: 0 <= i < |s| ==> !Closes(s, i)
    decreases |s|
  {
    if s != "" && s[0] == BACKSLASH {
      if |s| >= 2 {
        EscapedExactly(s[2..]);
        BackslashesPair(s, |s| - 2);
        assert !Closes(s, 0) && !Closes(s, 1) by {
          assert Backslashes(s, 1) == 1 + Backslashes(s, 0);
        }
        forall i | 0 <= i < |s| - 2 ensures Closes(s, i + 2) <==> Closes(s[2..], i) {
          BackslashesPair(s, i);
        }
        assert forall i :: 2 <= i < |s| ==> (Closes(s, i) <==> Closes(s[2..], i - 2)) by {
          forall i | 2 <= i < |s| ensures Closes(s, i) <==> Closes(s[2..], i - 2) {
            assert Closes(s, (i - 2) + 2) <==> Closes(s[2..], i - 2);
          }
        }
        assert forall i :: 0 <= i < |s| - 2 ==> (Closes(s[2..], i) <==> Closes(s, i + 2));
      } else {
        assert Backslashes(s, 1) == 1 + Backslashes(s, 0);
      }
    } else if s != "" {
      EscapedExactly(s[1..]);
      assert s == s[..1] + s[1..];
      forall i | 0 <= i <= |s| - 1 ensures Backslashes(s, i + 1) == Backslashes(s[1..], i) {
        BackslashesShift(s[..1], s[1..], i);
      }
      assert Closes(s, 0) <==> s[0] == QUOTE;
      assert forall i :: 1 <= i < |s| ==> (Closes(s, i) <==> Closes(s[1..], i - 1)) by {
        forall i | 1 <= i < |s| ensures Closes(s, i) <==> Closes(s[1..], i - 1) {
          assert Backslashes(s, (i - 1) + 1) == Backslashes(s[1..], i - 1);
        }
      }
      assert forall i :: 0 <= i < |s| - 1 ==> (Closes(s[1..], i) <==> Closes(s, i + 1));
    }
  }

  /** Escaped text is followed by its closing quote. */
  lemma ClosingAfter(s: string, rest: string)
    requires Escaped(s)
    ensures FirstClosing(s + [QUOTE] + rest, |s|)
  {
    var t := s + [QUOTE] + rest;
    EscapedExactly(s);
    forall i | 0 <= i <= |s| ensures Backslashes(t, i) == Backslashes(s, i) {
      SameBefore(s, t, i);
    }
    assert forall i :: 0 <= i < |s| ==> (Closes(t, i) <==> Closes(s, i));
  }

  lemma {:induction false} SameBefore(s: string, t: string, i: nat)
    requires i <= |s| <= |t| && t[..|s|] == s
    ensures Backslashes(t, i) == Backslashes(s, i)
  {
    if i > 0 {
      assert t[i - 1] == t[..|s|][i - 1];
      SameBefore(s, t, i - 1);
    }
  }

  /** strace's own escaping of a payload's quotes and backslashes. */
  function Escape(payload: string): string {
    if payload == "" then ""
    else
      (if payload[0] == QUOTE || payload[0] == BACKSLASH then [BACKSLASH, payload[0]] else [payload[0]])
      + Escape(payload[1..])
  }

  lemma {:induction false} EscapeEscapes(payload: string)
    ensures Escaped(Escape(payload))
  {
    if payload != "" {
      EscapeEscapes(payload[1..]);
      var e := Escape(payload);
      if payload[0] == QUOTE || payload[0] == BACKSLASH {
        assert e[2..] == Escape(payload[1..]);
      } else {
        assert e[1..] == Escape(payload[1..]);
      }
    }
  }

  // ---------- the scan ----------

  /** The first quote from position i on that closes the string. */
  function Closing(t: string, i: nat): (q: Option<nat>)
    requires i <= |t|
    ensures q.Some? ==> i <= q.value && Closes(t, q.value) && forall j :: i <= j < q.value ==> !Closes(t, j)
    ensures q.None? ==> forall j :: i <= j < |t| ==> !Closes(t, j)
    decreases |t| - i
  {
    if i == |t| then None else if Closes(t, i) then Some(i) else Closing(t, i + 1)
  }

  /** What the scan makes of the text after the closing quote at q. */
  function AfterClosing(line: string, q: nat): Comma
    requires q < |line|
  {
    var rest := line[q + 1..];
    if rest == "" then NotFound
    else if rest[0] == '.' then Comma(q + 1 + FirstDelim(rest, ','))
    else if rest[0] == ',' then Comma(q + 1)
    else NotFound
  }

  /** The comma after the argument that the first quote of the line opens. */
  function CommaOf(line: string): Comma {
    var f := FirstDelim(line, QUOTE);
    if f == |line| then
      match Find(line, "NULL,")
      case Some(i) => Comma(i + 4)
      case None => NotFound
    else if f == 0 then NotFound
    else
      match Closing(line[f + 1..], 0)
      case None => PastEnd
      case Some(q) => AfterClosing(line, f + 1 + q)
  }

  /** strace_pos_comma; the end of the line stands for its NUL. */
  method PosComma(line: string) returns (r: Comma)
    ensures r == CommaOf(line)
  {
    hide Closing, Find, AfterClosing;
    var c := FindQuote(line);
    if c == |line| {
      var found := Find(line, "NULL,");
      return match found case Some(i) => Comma(i + 4) case None => NotFound;
    }
    if c == 0 {
      return NotFound;
    }
    var q := FindClosing(line[c + 1..]);
    if q.None? {
      return PastEnd;
    }
    r := FindComma(line, c + 1 + q.value);
  }

  method FindQuote(line: string) returns (c: nat)
    ensures c == FirstDelim(line, QUOTE)
  {
    c := 0;
    while c < |line| && line[c] != QUOTE
      invariant 0 <= c <= |line| && QUOTE !in line[..c]
    {
      c := c + 1;
    }
    FirstDelimAt(line, c, QUOTE);
  }

  /** The scan for the second quote, which keeps a flag for a backslash that is not escaped itself. */
  method FindClosing(t: string) returns (q: Option<nat>)
    ensures q == Closing(t, 0)
  {
    var c := 0;
    var backslash := 0;
    while c < |t|
      invariant 0 <= c <= |t| && backslash == Backslashes(t, c) % 2
      invariant Closing(t, 0) == Closing(t, c)
    {
      if t[c] == QUOTE {
        if backslash == 0 {
          return Some(c);
        }
        backslash := 0;
      } else if t[c] == BACKSLASH {
        backslash := 1 - backslash;
      } else {
        backslash := 0;
      }
      c := c + 1;
    }
    q := None;
  }

  method FindComma(line: string, quote: nat) returns (r: Comma)
    requires quote < |line|
    ensures r == AfterClosing(line, quote)
  {
    var c := quote + 1;
    if c == |line| {
      return NotFound;
    }
    if line[c] == '.' {
      while c < |line| && line[c] != ','
        invariant quote + 1 <= c <= |line| && ',' !in line[quote + 1..][..c - quote - 1]
      {
        assert line[quote + 1..][..c + 1 - quote - 1] == line[quote + 1..][..c - quote - 1] + [line[c]];
        c := c + 1;
      }
      FirstDelimAt(line[quote + 1..], c - quote - 1, ',');
      return Comma(c);
    }
    r := if line[c] == ',' then Comma(c) else NotFound;
  }

  lemma AfterQuote(a: string, dots: string, rest: string)
    requires dots == "" || (dots[0] == '.' && ',' !in dots)
    ensures AfterClosing(a + [QUOTE] + (dots + [','] + rest), |a|) == Comma(|a| + 1 + |dots|)
  {
    var line, tail := a + [QUOTE] + (dots + [','] + rest), dots + [','] + rest;
    assert line[|a| + 1..] == tail;
    assert tail[..|dots|] == dots;
    if dots != "" {
      FirstDelimAt(tail, |dots|, ',');
    }
  }

  lemma Opening(prefix: string, t: string)
    requires QUOTE !in prefix
    ensures FirstDelim(prefix + [QUOTE] + t, QUOTE) == |prefix|
    ensures (prefix + [QUOTE] + t)[|prefix| + 1..] == t
  {
    var line := prefix + [QUOTE] + t;
    assert line[..|prefix|] == prefix;
    FirstDelimAt(line, |prefix|, QUOTE);
  }

  /** Whatever escaped text a line quotes, commas and quotes included, the comma found is the one after the closing
      quote. */
  lemma CommaIsExact(prefix: string, s: string, dots: string, rest: string)
    requires prefix != "" && QUOTE !in prefix && Escaped(s)
    requires dots == "" || (dots[0] == '.' && ',' !in dots)
    ensures CommaOf(prefix + [QUOTE] + (s + [QUOTE] + (dots + [','] + rest))) == Comma(|prefix| + 1 + |s| + 1 + |dots|)
  {
    hide *;
    var tail := dots + [','] + rest;
    ClosingAfter(s, tail);
    CommaFrom(prefix, s + [QUOTE] + tail, |s|);
    AfterQuote(prefix + [QUOTE] + s, dots, rest);
    Regroup(prefix + [QUOTE], s, [QUOTE], tail);
  }

  lemma Regroup(a: string, b: string, c: string, d: string)
    ensures a + (b + c + d) == a + b + c + d
  {
  }

  lemma CommaFrom(prefix: string, t: string, q: nat)
    requires prefix != "" && QUOTE !in prefix && FirstClosing(t, q)
    ensures CommaOf(prefix + [QUOTE] + t) == AfterClosing(prefix + [QUOTE] + t, |prefix| + 1 + q)
  {
    Opening(prefix, t);
    hide FirstDelim, AfterClosing, Backslashes;
    assert Closing(t, 0) == Some(q) by { hide Closing; }
  }

  /** In particular for a payload in which every quote and every backslash has been escaped. */
  lemma CommaAfterPayload(prefix: string, payload: string, dots: string, rest: string)
    requires prefix != "" && QUOTE !in prefix
    requires dots == "" || (dots[0] == '.' && ',' !in dots)
    ensures CommaOf(prefix + [QUOTE] + (Escape(payload) + [QUOTE] + (dots + [','] + rest)))
      == Comma(|prefix| + 1 + |Escape(payload)| + 1 + |dots|)
  {
    EscapeEscapes(payload);
    CommaIsExact(prefix, Escape(payload), dots, rest);
  }

  /** What a tail behind the closing quote, from position at on, gives: a comma there; the first one after dots, or the
      end of the line for want of one; and nothing with anything else. */
  predicate Decides(tail: string, at: nat, r: Comma) {
    match r
    case NotFound => tail == "" || tail[0] !in {',', '.'}
    case Comma(i) =>
      && tail != "" && at <= i <= at + |tail| && (tail[0] == ',' ==> i == at)
      && tail[0] in {',', '.'} && ',' !in tail[..i - at] && (i < at + |tail| ==> tail[i - at] == ',')
    case PastEnd => false
  }

  /** With a quoted argument it is what follows the closing quote that decides; a line that starts with the quote is
      passed over. */
  lemma CommaExactly(prefix: string, s: string, tail: string)
    requires QUOTE !in prefix && Escaped(s)
    ensures var r := CommaOf(prefix + [QUOTE] + (s + [QUOTE] + tail));
      if prefix == "" then r == NotFound else Decides(tail, |prefix| + 1 + |s| + 1, r)
  {
    hide *;
    if prefix == "" {
      OpensLine(s + [QUOTE] + tail);
      assert prefix + [QUOTE] == [QUOTE];
    } else {
      ClosingAfter(s, tail);
      CommaFrom(prefix, s + [QUOTE] + tail, |s|);
      TailOf(prefix, s, tail);
      AfterClosingIs(prefix + [QUOTE] + (s + [QUOTE] + tail), |prefix| + 1 + |s|, tail);
    }
  }

  lemma TailOf(prefix: string, s: string, tail: string)
    ensures var line, q := prefix + [QUOTE] + (s + [QUOTE] + tail), |prefix| + 1 + |s|;
      q < |line| && line[q + 1..] == tail
  {
  }

  lemma OpensLine(t: string)
    ensures CommaOf([QUOTE] + t) == NotFound
  {
    hide Closing, Find;
  }

  lemma AfterClosingIs(line: string, q: nat, tail: string)
    requires q < |line| && line[q + 1..] == tail
    ensures Decides(tail, q + 1, AfterClosing(line, q))
  {
    hide FirstDelim;
  }

  /** In a line without a quote, the comma is that of the first "NULL,", if there is one. */
  lemma NullArgument(line: string)
    requires QUOTE !in line
    ensures match CommaOf(line)
            case Comma(i) =>
              && i >= 4 && At(line, "NULL,", i - 4) && line[i] == ','
              && forall k :: 0 <= k < i - 4 ==> !At(line, "NULL,", k)
            case NotFound => forall k: nat :: !At(line, "NULL,", k)
            case PastEnd => false
  {
    assert line[..|line|] == line;
    FirstDelimAt(line, |line|, QUOTE);
    var word := "NULL,";
    if Find(line, word).Some? {
      var i := Find(line, word).value;
      assert line[i..i + 5][4] == word[4];
    }
  }

  /** The scan leaves the line exactly when no quote after the opening one closes the string. */
  lemma LeavesLineIff(prefix: string, t: string)
    requires prefix != "" && QUOTE !in prefix
    ensures CommaOf(prefix + [QUOTE] + t) == PastEnd <==> forall q :: !Closes(t, q)
  {
    Opening(prefix, t);
    hide FirstDelim;
  }
}
