/** C strings as the repository takes them apart: strstr, rindex, strtok, and delimited paths. */
module PathText {
  import opened Options

  // ---------- searching ----------

  predicate StartsWith(s: string, p: string) {
    |p| <= |s| && s[..|p|] == p
  }

  predicate At(s: string, p: string, i: nat) {
    i + |p| <= |s| && s[i..i + |p|] == p
  }

  function FindFrom(s: string, p: string, i: nat): (r: Option<nat>)
    requires i <= |s|
    ensures r.Some? ==> i <= r.value && At(s, p, r.value) && forall j :: i <= j < r.value ==> !At(s, p, j)
    ensures r.None? ==> forall j :: i <= j ==> !At(s, p, j)
    decreases |s| - i
  {
    if At(s, p, i) then Some(i)
    else if i == |s| then None
    else FindFrom(s, p, i + 1)
  }

  /** strstr: the first occurrence of p in s. */
  function Find(s: string, p: string): (r: Option<nat>)
    ensures r.Some? ==> At(s, p, r.value) && forall j :: 0 <= j < r.value ==> !At(s, p, j)
    ensures r.None? ==> forall j: nat :: !At(s, p, j)
  {
    FindFrom(s, p, 0)
  }

  /** rindex: the last occurrence of c in s. */
  function LastIndex(s: string, c: char): (r: Option<nat>)
    ensures r.Some? ==> r.value < |s| && s[r.value] == c && c !in s[r.value + 1..]
    ensures r.None? ==> c !in s
  {
    if s == "" then None
    else if s[|s| - 1] == c then Some(|s| - 1)
    else LastIndex(s[..|s| - 1], c)
  }

  // ---------- tokens ----------

  function FirstDelim(s: string, d: char): (n: nat)
    ensures n <= |s| && d !in s[..n] && (n < |s| ==> s[n] == d)
  {
    if s == "" || s[0] == d then 0 else 1 + FirstDelim(s[1..], d)
  }

  /** The non-empty pieces of s between delimiters: what strtok hands out one by one. */
  function Tokens(s: string, d: char): seq<string>
    decreases |s|
  {
    if s == "" then []
    else
      var n := FirstDelim(s, d);
      var rest := if n < |s| then Tokens(s[n + 1..], d) else [];
      if n == 0 then rest else [s[..n]] + rest
  }

  /** What is left after the first n characters and the delimiter that ended them. */
  function AfterDelim(s: string, n: nat): (r: string)
    requires n <= |s|
    ensures n < |s| || s != "" ==> |r| < |s|
    ensures n + |r| + (if r != "" then 1 else 0) <= |s|
  {
    if n < |s| then s[n + 1..] else ""
  }

  lemma TokensStep(s: string, d: char)
    requires s != ""
    ensures var n := FirstDelim(s, d);
      Tokens(s, d) == (if n == 0 then [] else [s[..n]]) + Tokens(AfterDelim(s, n), d)
  {
  }

  lemma TokensNext(s: string, d: char)
    requires s != ""
    ensures var n := FirstDelim(s, d);
      && (n == 0 ==> Tokens(s, d) == Tokens(s[1..], d))
      && (n > 0 ==> Tokens(s, d) == [s[..n]] + Tokens(AfterDelim(s, n), d) && |AfterDelim(s, n)| < |s|)
  {
    TokensStep(s, d);
    hide Tokens;
    var n := FirstDelim(s, d);
    if n == 0 {
      assert AfterDelim(s, 0) == s[1..] && [] + Tokens(s[1..], d) == Tokens(s[1..], d);
    }
  }

  /** strtok: the next token and what is left after it. */
  function Strtok(s: string, d: char): (r: Option<(string, string)>)
    ensures r.None? ==> Tokens(s, d) == []
    ensures r.Some? ==> Tokens(s, d) == [r.value.0] + Tokens(r.value.1, d) && |r.value.1| < |s|
    decreases |s|
  {
    if s == "" then None
    else
      TokensNext(s, d);
      var n := FirstDelim(s, d);
      if n == 0 then Strtok(s[1..], d) else Some((s[..n], AfterDelim(s, n)))
  }

  predicate Component(c: string, d: char) {
    c != "" && d !in c
  }

  /** strtok uses up a leading delimiter, the token, and the delimiter that ended it. */
  lemma {:induction false} StrtokPieces(s: string, d: char)
    requires Strtok(s, d).Some?
    ensures var (t, rest) := Strtok(s, d).value;
      && s != "" && |t| + |rest| + (if s[0] == d then 1 else 0) + (if rest != "" then 1 else 0) <= |s|
      && Component(t, d) && (NulFree(s) ==> NulFree(t) && NulFree(rest))
    decreases |s|
  {
    hide Tokens;
    if FirstDelim(s, d) == 0 {
      StrtokPieces(s[1..], d);
    }
  }

  predicate Components(cs: seq<string>, d: char) {
    forall i :: 0 <= i < |cs| ==> Component(cs[i], d)
  }

  lemma {:induction false} TokensAreComponents(s: string, d: char)
    ensures Components(Tokens(s, d), d)
    decreases |s|
  {
    if s != "" {
      var n := FirstDelim(s, d);
      if n < |s| {
        TokensAreComponents(s[n + 1..], d);
      }
    }
  }

  lemma {:induction false} FirstDelimAt(s: string, n: nat, d: char)
    requires n <= |s| && d !in s[..n] && (n < |s| ==> s[n] == d)
    ensures FirstDelim(s, d) == n
  {
    if n > 0 {
      assert s[..n][0] == s[0];
      assert s[1..][..n - 1] == s[..n][1..];
      FirstDelimAt(s[1..], n - 1, d);
    }
  }

  lemma TokensOfPiece(c: string, d: char)
    requires d !in c
    ensures Tokens(c, d) == if c == "" then [] else [c]
  {
    FirstDelimAt(c, |c|, d);
    assert c[..|c|] == c;
  }

  /** A delimiter separates the tokens before it from those after it. */
  lemma {:induction false} TokensSplit(a: string, b: string, d: char)
    ensures Tokens(a + [d] + b, d) == Tokens(a, d) + Tokens(b, d)
    decreases |a|
  {
    var s := a + [d] + b;
    var n := FirstDelim(a, d);
    if n == |a| {
      FirstDelimAt(s, n, d);
      assert s[n + 1..] == b && s[..n] == a;
      TokensOfPiece(a, d);
    } else {
      assert s[..n] == a[..n];
      FirstDelimAt(s, n, d);
      assert s[n + 1..] == a[n + 1..] + [d] + b;
      TokensSplit(a[n + 1..], b, d);
    }
  }

  // ---------- joined paths ----------

  /** Each component after a slash; no component gives the empty string. */
  function Join(cs: seq<string>): string {
    if cs == [] then "" else "/" + cs[0] + Join(cs[1..])
  }

  lemma {:induction false} JoinSplit(xs: seq<string>, ys: seq<string>)
    ensures Join(xs + ys) == Join(xs) + Join(ys)
  {
    if xs == [] {
      assert xs + ys == ys;
    } else {
      assert (xs + ys)[1..] == xs[1..] + ys;
      JoinSplit(xs[1..], ys);
    }
  }

  lemma JoinSnoc(cs: seq<string>, c: string)
    ensures Join(cs + [c]) == Join(cs) + ['/'] + c
  {
    JoinSplit(cs, [c]);
    assert [c][1..] == [];
  }

  /** Splitting undoes joining. */
  lemma {:induction false} TokensOfJoin(cs: seq<string>)
    requires Components(cs, '/')
    ensures Tokens(Join(cs), '/') == cs
    decreases |cs|
  {
    if cs != [] {
      var init, last := cs[..|cs| - 1], cs[|cs| - 1];
      assert cs == init + [last] && Component(last, '/');
      TokensOfJoin(init);
      JoinSnoc(init, last);
      TokensSplit(Join(init), last, '/');
      TokensOfPiece(last, '/');
    }
  }

  // ---------- strings in buffers ----------

  predicate NulFree(s: string) {
    '\0' !in s
  }

  /** The buffer holds s and its terminating NUL. */
  predicate Holds(a: seq<char>, s: string) {
    |s| < |a| && a[..|s|] == s && a[|s|] == '\0'
  }

  /** strlen and the characters before it. */
  function Text(a: seq<char>): string {
    if a == [] || a[0] == '\0' then "" else [a[0]] + Text(a[1..])
  }

  lemma {:induction false} HeldText(a: seq<char>, s: string)
    requires Holds(a, s) && NulFree(s)
    ensures Text(a) == s
    decreases |s|
  {
    if s != "" {
      assert a[0] == a[..|s|][0] == s[0];
      assert a[1..][..|s| - 1] == a[..|s|][1..];
      HeldText(a[1..], s[1..]);
    }
  }

  /** memcpy of s to position at. */
  method Copy(buff: array<char>, at: nat, s: string)
    requires at + |s| <= buff.Length
    modifies buff
    ensures buff[..] == old(buff[..at]) + s + old(buff[at + |s|..])
  {
    for i := 0 to |s|
      invariant buff[..] == old(buff[..at]) + s[..i] + old(buff[at + i..])
    {
      buff[at + i] := s[i];
    }
  }

  /** strcpy to, or strcat at, position at. */
  method Store(buff: array<char>, at: nat, s: string)
    requires at + |s| < buff.Length
    modifies buff
    ensures buff[..] == old(buff[..at]) + s + ['\0'] + old(buff[at + |s| + 1..])
  {
    Copy(buff, at, s);
    buff[at + |s|] := '\0';
  }
}
