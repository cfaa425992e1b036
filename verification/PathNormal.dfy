/** simfs_absolute_name: removing ".." and "." from a path by editing its text. */
module PathNormal {
  import opened Options
  import opened PathText

  // ---------- the text editing ----------

  /** The first loop: the leftmost "/.." goes, with the directory before it. None stands for the
      failed assert when there is no slash before it. */
  function DropDotDots(s: string): Option<string>
    decreases |s|
  {
    match Find(s, "/..")
    case None => Some(s)
    case Some(off) =>
      if off == 0 then DropDotDots(s[3..])
      else
        match LastIndex(s[..off], '/')
        case None => None
        case Some(slash) => DropDotDots(s[..slash] + s[off + 3..])
  }

  /** The second loop: every "/." goes, but a path of nothing else becomes "/". */
  function DropDots(s: string): string
    decreases |s|
  {
    match Find(s, "/.")
    case None => s
    case Some(off) => if off == 0 && |s| == 2 then DropDots("/") else DropDots(s[..off] + s[off + 2..])
  }

  function Normalise(s: string): Option<string> {
    match DropDotDots(s)
    case None => None
    case Some(t) => Some(DropDots(t))
  }

  // ---------- what it should mean ----------

  /** The stack of directories after following cs: ".." leaves the innermost, or stays at the root. */
  function Follow(stack: seq<string>, cs: seq<string>): seq<string>
    decreases |cs|
  {
    if cs == [] then stack
    else if cs[0] != ".." then Follow(stack + [cs[0]], cs[1..])
    else Follow(if stack == [] then [] else stack[..|stack| - 1], cs[1..])
  }

  function WithoutDots(cs: seq<string>): seq<string> {
    if cs == [] then []
    else (if cs[0] == "." then [] else [cs[0]]) + WithoutDots(cs[1..])
  }

  /** The normal form: ".." followed with "." taken for a name, then "." removed; a path of "." only
      is the root's "/", and an empty one is "". */
  function Meaning(cs: seq<string>): string {
    var stack := Follow([], cs);
    if stack != [] && WithoutDots(stack) == [] then "/" else Join(WithoutDots(stack))
  }

  /** No component starts with ".." unless it is "..": "/.." is then always a whole component. */
  predicate Tame(cs: seq<string>) {
    Components(cs, '/') && forall i :: 0 <= i < |cs| ==> cs[i] == ".." || !StartsWith(cs[i], "..")
  }

  /** A component such as ".bashrc", in which "/." is not a whole component. */
  predicate Hidden(c: string) {
    StartsWith(c, ".") && c != "."
  }

  predicate NoneHidden(cs: seq<string>) {
    forall i :: 0 <= i < |cs| ==> !Hidden(cs[i])
  }

  // ---------- where the pattern is found ----------

  /** No component starts with q. */
  predicate Free(cs: seq<string>, q: string) {
    Components(cs, '/') && forall i :: 0 <= i < |cs| ==> !StartsWith(cs[i], q)
  }

  /** A slash and q cannot start at the slash before a component that does not start with q. */
  lemma NotAtHead(c: string, rest: string, q: string)
    requires !StartsWith(c, q) && (rest == "" || rest[0] == '/') && '/' !in q
    ensures !At("/" + c + rest, "/" + q, 0)
  {
    var s := "/" + c + rest;
    if 1 + |q| <= |s| {
      assert forall k :: 0 <= k < |q| ==> ("/" + q)[1 + k] == q[k];
      if |c| < |q| {
        assert s[..1 + |q|][1 + |c|] == s[1 + |c|] == rest[0];
        assert q[|c|] in q;
      } else {
        assert s[..1 + |q|][1..] == c[..|q|];
        assert ("/" + q)[1..] == q;
      }
    }
  }

  /** With such components only, "/" + q occurs in Join(pre) + tail only in tail. */
  lemma {:induction false} NotInside(pre: seq<string>, tail: string, q: string, i: nat)
    requires Free(pre, q) && (tail == "" || tail[0] == '/') && '/' !in q
    requires i < |Join(pre)|
    ensures !At(Join(pre) + tail, "/" + q, i)
    decreases |pre|
  {
    if pre != [] {
      var c, s := pre[0], Join(pre) + tail;
      var rest := Join(pre[1..]) + tail;
      JoinFirst(pre);
      Associate("/" + c, Join(pre[1..]), tail);
      AfterHead(c, rest);
      if i == 0 {
        NotAtHead(c, rest, q);
      } else if i <= |c| {
        assert s[i] == c[i - 1] && c[i - 1] in c && Component(c, '/');
        assert i + 1 + |q| <= |s| ==> s[i..i + 1 + |q|][0] == s[i];
      } else {
        assert Free(pre[1..], q);
        NotInside(pre[1..], tail, q, i - 1 - |c|);
        AtInRest(s, rest, "/" + q, 1 + |c|, i);
      }
    }
  }

  lemma AfterHead(c: string, rest: string)
    ensures ("/" + c + rest)[1 + |c|..] == rest
  {
  }

  lemma AtInRest(s: string, rest: string, p: string, n: nat, i: nat)
    requires n <= i && n <= |s| && s[n..] == rest
    ensures At(s, p, i) <==> At(rest, p, i - n)
  {
    var k := i - n;
    assert |rest| == |s| - n;
    if i + |p| <= |s| {
      var here := s[n..];
      assert here[k..k + |p|] == s[n + k..n + k + |p|];
      assert here == rest;
    }
  }

  /** The first "/" + q is the first component that is q. */
  lemma FoundAt(pre: seq<string>, tail: string, q: string)
    requires Free(pre, q) && '/' !in q
    ensures Find(Join(pre) + "/" + q + tail, "/" + q) == Some(|Join(pre)|)
  {
    var t := "/" + q + tail;
    var s := Join(pre) + "/" + q + tail;
    assert s == Join(pre) + t;
    assert At(s, "/" + q, |Join(pre)|) by {
      assert s[|Join(pre)|..|Join(pre)| + 1 + |q|] == "/" + q;
    }
    hide At;
    forall i: nat | i < |Join(pre)| ensures !At(s, "/" + q, i) {
      NotInside(pre, t, q, i);
    }
  }

  lemma FoundNowhere(cs: seq<string>, q: string)
    requires Free(cs, q) && '/' !in q
    ensures Find(Join(cs), "/" + q) == None
  {
    assert Join(cs) + "" == Join(cs);
    forall i: nat ensures !At(Join(cs), "/" + q, i) {
      if i < |Join(cs)| {
        NotInside(cs, "", q, i);
      }
    }
  }

  lemma {:induction false} LastSlashAt(a: string, c: string)
    requires '/' !in c
    ensures LastIndex(a + ['/'] + c, '/') == Some(|a|)
    decreases |c|
  {
    var s := a + ['/'] + c;
    if c == "" {
      LastIsThis(s, '/');
    } else {
      assert s[|s| - 1] == c[|c| - 1] && c[|c| - 1] in c;
      assert s[..|s| - 1] == a + ['/'] + c[..|c| - 1];
      LastIsEarlier(s, '/');
      hide LastIndex;
      LastSlashAt(a, c[..|c| - 1]);
    }
  }

  lemma LastIsThis(s: string, c: char)
    requires s != "" && s[|s| - 1] == c
    ensures LastIndex(s, c) == Some(|s| - 1)
  {
  }

  lemma LastIsEarlier(s: string, c: char)
    requires s != "" && s[|s| - 1] != c
    ensures LastIndex(s, c) == LastIndex(s[..|s| - 1], c)
  {
  }

  // ---------- the first loop ----------

  /** How many components come before the first one that is q. */
  function Leading(cs: seq<string>, q: string): (n: nat)
    ensures n <= |cs| && (forall i :: 0 <= i < n ==> cs[i] != q) && (n < |cs| ==> cs[n] == q)
  {
    if cs == [] || cs[0] == q then 0
    else
      var n := Leading(cs[1..], q);
      assert forall i :: 1 <= i < n + 1 ==> cs[i] == cs[1..][i - 1];
      1 + n
  }

  /** The text around the first component that is q. */
  lemma AroundFirst(cs: seq<string>, n: nat, q: string)
    requires n < |cs| && cs[n] == q && Free(cs[..n], q) && '/' !in q
    ensures var s, off := Join(cs), |Join(cs[..n])|;
            && Find(s, "/" + q) == Some(off) && off + 1 + |q| <= |s|
            && s[..off] == Join(cs[..n]) && s[off + 1 + |q|..] == Join(cs[n + 1..])
  {
    var pre, post := cs[..n], cs[n + 1..];
    assert cs == pre + [q] + post;
    JoinSnoc(pre, q);
    JoinSplit(pre + [q], post);
    assert Join(cs) == Join(pre) + "/" + q + Join(post);
    FoundAt(pre, Join(post), q);
  }

  lemma DropOne(s: string, off: nat, slash: nat)
    requires 0 < off <= |s| && Find(s, "/..") == Some(off) && LastIndex(s[..off], '/') == Some(slash) && off + 3 <= |s|
    ensures slash <= off && DropDotDots(s) == DropDotDots(s[..slash] + s[off + 3..])
  {
    hide Find, LastIndex;
  }

  lemma FollowedAll(stack: seq<string>)
    ensures Follow(stack, []) == stack
  {
  }

  /**
   * The first loop on the text head + Join(stack) + Join(todo), of which nothing before todo starts with "..". A
   * component that does takes the one before it along, and the rest of its own name sticks to what is left: to a
   * component, which may then start with ".." itself, or to the head, which no slash precedes. With nothing before
   * it but such a head the assert fails.
   */
  function Fold(head: string, stack: seq<string>, todo: seq<string>): Option<string>
    decreases 2 * |todo| + |stack|
  {
    if todo == [] then Some(head + Join(stack))
    else if !StartsWith(todo[0], "..") then Fold(head, stack + [todo[0]], todo[1..])
    else
      var rest := todo[0][2..];
      if stack == [] then
        if head == "" then Fold(rest, [], todo[1..]) else None
      else if |stack| == 1 then Fold(head + rest, [], todo[1..])
      else Fold(head, stack[..|stack| - 2], [stack[|stack| - 2] + rest] + todo[1..])
  }

  lemma FindAfterHead(h: string, s: string, off: nat)
    requires '/' !in h && Find(s, "/..") == Some(off)
    ensures Find(h + s, "/..") == Some(|h| + off)
  {
    forall i: nat ensures At(h + s, "/..", |h| + i) <==> At(s, "/..", i) {
      ShiftedAt(h, s, i);
    }
    forall i: nat | i < |h| ensures !At(h + s, "/..", i) {
      SlashFirst(h, s, i);
    }
    forall i: nat | i < |h| + off ensures !At(h + s, "/..", i) {
      if i >= |h| {
        ShiftedAt(h, s, i - |h|);
      }
    }
  }

  lemma ShiftedAt(h: string, s: string, i: nat)
    ensures At(h + s, "/..", |h| + i) <==> At(s, "/..", i)
  {
    if i + 3 <= |s| {
      assert (h + s)[|h| + i..|h| + i + 3] == s[i..i + 3];
    }
  }

  lemma SlashFirst(h: string, s: string, i: nat)
    requires '/' !in h && i < |h|
    ensures !At(h + s, "/..", i)
  {
    assert h[i] in h;
    if i + 3 <= |h + s| {
      assert (h + s)[i..i + 3][0] == h[i];
    }
  }

  lemma FindNothingAfterHead(h: string, s: string)
    requires '/' !in h && Find(s, "/..") == None
    ensures Find(h + s, "/..") == None
  {
    forall i: nat ensures !At(h + s, "/..", i) {
      if i < |h| {
        SlashFirst(h, s, i);
      } else {
        ShiftedAt(h, s, i - |h|);
      }
    }
  }

  lemma LastSlashIs(h: string, stack: seq<string>)
    requires '/' !in h && Components(stack, '/')
    ensures LastIndex(h + Join(stack), '/') ==
      if stack == [] then None else Some(|h + Join(stack[..|stack| - 1])|)
  {
    JoinNone();
    hide Join, LastIndex;
    if stack == [] {
      assert h + Join(stack) == h;
      NoSlashAt(h);
    } else {
      var init, last := stack[..|stack| - 1], stack[|stack| - 1];
      assert stack == init + [last] && Component(last, '/');
      JoinSnoc(init, last);
      LastSlashAt(h + Join(init), last);
      Associate4(h, Join(init), ['/'], last);
    }
  }

  lemma NoSlashAt(h: string)
    requires '/' !in h
    ensures LastIndex(h, '/') == None
  {
  }

  lemma Associate4(a: string, b: string, c: string, d: string)
    ensures a + b + c + d == a + (b + c + d)
  {
  }

  /** Where the loop finds "/..", and what stands around it. */
  lemma Around(h: string, stack: seq<string>, rest: string, tail: string)
    requires '/' !in h && Free(stack, "..")
    ensures var text, off := h + Join(stack) + "/.." + rest + tail, |h + Join(stack)|;
      && Find(text, "/..") == Some(off) && off + 3 <= |text|
      && text[..off] == h + Join(stack) && text[off + 3..] == rest + tail
  {
    assert "/" + ".." == "/..";
    hide Find, Free, Join;
    var j, tail' := Join(stack), rest + tail;
    FoundAt(stack, tail', "..");
    FindAfterHead(h, j + "/" + ".." + tail', |j|);
    Regroup(h, j, rest, tail);
  }

  lemma Regroup(h: string, j: string, rest: string, tail: string)
    ensures h + j + "/.." + rest + tail == h + (j + "/" + ".." + (rest + tail))
    ensures var text, off := h + j + "/.." + rest + tail, |h + j|;
      off + 3 <= |text| && text[..off] == h + j && text[off + 3..] == rest + tail
  {
    assert h + j + "/.." + rest + tail == (h + j) + "/.." + (rest + tail);
  }

  lemma DropFirst(s: string)
    requires Find(s, "/..") == Some(0) && |s| >= 3
    ensures DropDotDots(s) == DropDotDots(s[3..])
  {
    hide Find;
  }

  lemma DropNone(s: string, off: nat)
    requires 0 < off <= |s| && Find(s, "/..") == Some(off) && LastIndex(s[..off], '/') == None
    ensures DropDotDots(s) == None
  {
    hide Find, LastIndex;
  }

  lemma DropNothing(s: string)
    requires Find(s, "/..") == None
    ensures DropDotDots(s) == Some(s)
  {
    hide Find;
  }

  /** One round of the loop with a component to take along. */
  lemma RoundPops(h: string, stack: seq<string>, rest: string, tail: string)
    requires '/' !in h && Free(stack, "..") && stack != []
    ensures DropDotDots(h + Join(stack) + "/.." + rest + tail)
      == DropDotDots(h + Join(stack[..|stack| - 1]) + rest + tail)
  {
    var init := stack[..|stack| - 1];
    var text, off := h + Join(stack) + "/.." + rest + tail, |h + Join(stack)|;
    Around(h, stack, rest, tail);
    LastSlashIs(h, stack);
    JoinLonger(stack);
    JoinLast(h, stack);
    hide *;
    PopText(text, h + Join(init), h + Join(stack), rest + tail);
    Associate(h + Join(init), rest, tail);
  }

  lemma PopText(text: string, a: string, b: string, after: string)
    requires a <= b && b != "" && |b| + 3 <= |text| && text[..|b|] == b && text[|b| + 3..] == after
    requires Find(text, "/..") == Some(|b|) && LastIndex(b, '/') == Some(|a|)
    ensures DropDotDots(text) == DropDotDots(a + after)
  {
    hide Find, LastIndex, DropDotDots;
    DropOne(text, |b|, |a|);
    assert a == b[..|a|];
    assert text[..|a|] == text[..|b|][..|a|];
  }

  lemma JoinLast(h: string, stack: seq<string>)
    requires stack != []
    ensures h + Join(stack[..|stack| - 1]) <= h + Join(stack)
  {
    var init, last := stack[..|stack| - 1], stack[|stack| - 1];
    assert stack == init + [last];
    hide *;
    JoinSnoc(init, last);
    Longer(h, Join(init), last);
  }

  lemma Longer(h: string, a: string, c: string)
    ensures h + a <= h + (a + ['/'] + c)
  {
  }

  lemma Associate(a: string, b: string, c: string)
    ensures a + (b + c) == a + b + c
  {
  }

  /** One round of the loop. */
  lemma Round(h: string, stack: seq<string>, rest: string, tail: string)
    requires '/' !in h && Free(stack, "..")
    ensures var text := h + Join(stack) + "/.." + rest + tail;
      DropDotDots(text) ==
        if stack == [] then (if h == "" then DropDotDots(rest + tail) else None)
        else DropDotDots(h + Join(stack[..|stack| - 1]) + rest + tail)
  {
    if stack != [] {
      RoundPops(h, stack, rest, tail);
    } else {
      var text, off := h + Join(stack) + "/.." + rest + tail, |h + Join(stack)|;
      Around(h, stack, rest, tail);
      LastSlashIs(h, stack);
      JoinNone();
      hide *;
      if h == "" {
        DropFirst(text);
      } else {
        DropNone(text, off);
      }
    }
  }

  lemma JoinNone()
    ensures Join([]) == ""
  {
  }

  /** The first loop, on every path of components. */
  lemma {:induction false} LoopIsFold(head: string, stack: seq<string>, todo: seq<string>)
    requires '/' !in head && Free(stack, "..") && Components(todo, '/')
    ensures DropDotDots(head + Join(stack) + Join(todo)) == Fold(head, stack, todo)
    decreases 2 * |todo| + |stack|
  {
    var text := head + Join(stack);
    JoinNone();
    hide DropDotDots, Join;
    if todo == [] {
      LoopEnds(head, stack);
    } else {
      var c, more := todo[0], todo[1..];
      assert Component(c, '/') && Components(more, '/');
      JoinFirst(todo);
      if !StartsWith(c, "..") {
        NextName(head, stack, c, Join(more));
        LoopIsFold(head, stack + [c], more);
      } else {
        DotDotRest(c);
        var rest := c[2..];
        NextDots(head, stack, c, Join(more));
        Round(head, stack, rest, Join(more));
        if stack == [] {
          if head == "" {
            LoopIsFold(rest, [], more);
            assert rest + "" + Join(more) == rest + Join(more);
          }
        } else if |stack| == 1 {
          assert stack[..0] == [];
          LoopIsFold(head + rest, [], more);
          assert head + "" + rest + Join(more) == head + rest + "" + Join(more);
        } else {
          Merged(head, stack, rest, more);
          LoopIsFold(head, stack[..|stack| - 2], [stack[|stack| - 2] + rest] + more);
        }
      }
    }
  }

  lemma LoopEnds(head: string, stack: seq<string>)
    requires '/' !in head && Free(stack, "..")
    ensures DropDotDots(head + Join(stack) + "") == Some(head + Join(stack))
  {
    assert "/" + ".." == "/..";
    FoundNowhere(stack, "..");
    FindNothingAfterHead(head, Join(stack));
    DropNothing(head + Join(stack));
    assert head + Join(stack) + "" == head + Join(stack);
  }

  lemma JoinFirst(cs: seq<string>)
    requires cs != []
    ensures Join(cs) == "/" + cs[0] + Join(cs[1..])
  {
  }

  lemma DotDotRest(c: string)
    requires Component(c, '/') && StartsWith(c, "..")
    ensures c == ".." + c[2..] && '/' !in c[2..]
  {
  }

  lemma NextName(head: string, stack: seq<string>, c: string, tail: string)
    ensures head + Join(stack) + ("/" + c + tail) == head + Join(stack + [c]) + tail
  {
    JoinSnoc(stack, c);
    hide Join;
    assert head + Join(stack) + ("/" + c + tail) == head + (Join(stack) + ['/'] + c) + tail;
  }

  lemma NextDots(head: string, stack: seq<string>, c: string, tail: string)
    requires |c| >= 2 && c == ".." + c[2..]
    ensures head + Join(stack) + ("/" + c + tail) == head + Join(stack) + "/.." + c[2..] + tail
  {
    hide Join;
    assert "/" + c + tail == "/.." + c[2..] + tail;
  }

  /** The rest of the name sticks to the component before. */
  lemma Merged(head: string, stack: seq<string>, rest: string, more: seq<string>)
    requires |stack| >= 2 && Free(stack, "..") && '/' !in rest && Components(more, '/')
    ensures var n := |stack|; var todo := [stack[n - 2] + rest] + more;
      && head + Join(stack[..n - 1]) + rest + Join(more) == head + Join(stack[..n - 2]) + Join(todo)
      && Components(todo, '/') && Free(stack[..n - 2], "..")
  {
    var n := |stack|;
    var todo := [stack[n - 2] + rest] + more;
    assert Component(stack[n - 2], '/');
    assert stack[..n - 1] == stack[..n - 2] + [stack[n - 2]];
    JoinSnoc(stack[..n - 2], stack[n - 2]);
    JoinFirst(todo);
    assert todo[1..] == more;
    hide Join;
    var a := Join(stack[..n - 2]);
    assert head + (a + ['/'] + stack[n - 2]) + rest + Join(more)
      == head + a + ("/" + (stack[n - 2] + rest) + Join(more));
  }

  /** On tame paths the fold is the stack of directories. */
  lemma {:induction false} FoldFollows(stack: seq<string>, todo: seq<string>)
    requires Free(stack, "..") && Tame(todo)
    ensures Fold("", stack, todo) == Some(Join(Follow(stack, todo)))
    decreases |todo|
  {
    hide Join;
    if todo == [] {
      assert "" + Join(stack) == Join(stack);
    } else {
      var c, more := todo[0], todo[1..];
      assert Component(c, '/') && Tame(more);
      if c != ".." {
        FoldFollows(stack + [c], more);
      } else {
        FoldPops(stack, more);
        FoldFollows(if stack == [] then [] else stack[..|stack| - 1], more);
      }
    }
  }

  lemma FoldPops(stack: seq<string>, more: seq<string>)
    requires Free(stack, "..")
    ensures Fold("", stack, [".."] + more) == Fold("", if stack == [] then [] else stack[..|stack| - 1], more)
  {
    var todo := [".."] + more;
    assert todo[0] == ".." && todo[1..] == more && ".."[2..] == "" && StartsWith("..", "..");
    if |stack| == 1 {
      assert "" + "" == "";
    } else if |stack| > 1 {
      var n := |stack|;
      var c := stack[n - 2];
      assert c + "" == c && ([c] + more)[1..] == more && stack[..n - 2] + [c] == stack[..n - 1];
      assert Fold("", stack, todo) == Fold("", stack[..n - 2], [c] + more);
    }
  }

  /** The first loop resolves ".." as a stack does. */
  lemma DropDotDotsFollows(cs: seq<string>)
    requires Tame(cs)
    ensures DropDotDots(Join(cs)) == Some(Join(Follow([], cs)))
  {
    LoopIsFold("", [], cs);
    JoinNone();
    FoldFollows([], cs);
    assert "" + "" + Join(cs) == Join(cs);
  }

  // ---------- the second loop ----------

  lemma {:induction false} WithoutDotsSplit(xs: seq<string>, ys: seq<string>)
    ensures WithoutDots(xs + ys) == WithoutDots(xs) + WithoutDots(ys)
  {
    if xs == [] {
      assert xs + ys == ys;
    } else {
      assert (xs + ys)[1..] == xs[1..] + ys;
      WithoutDotsSplit(xs[1..], ys);
    }
  }

  lemma {:induction false} NoDots(xs: seq<string>)
    requires forall i :: 0 <= i < |xs| ==> xs[i] != "."
    ensures WithoutDots(xs) == xs
  {
    if xs != [] {
      NoDots(xs[1..]);
    }
  }

  lemma WithoutFirstDot(pre: seq<string>, post: seq<string>)
    ensures WithoutDots(pre + ["."] + post) == WithoutDots(pre + post)
  {
    WithoutDotsSplit(pre + ["."], post);
    WithoutDotsSplit(pre, ["."]);
    assert ["."][1..] == [];
    WithoutDotsSplit(pre, post);
  }

  lemma VisibleParts(cs: seq<string>, n: nat)
    requires Components(cs, '/') && NoneHidden(cs) && n <= |cs| && (forall i :: 0 <= i < n ==> cs[i] != ".")
    ensures Free(cs[..n], ".")
    ensures n < |cs| ==> Components(cs[..n] + cs[n + 1..], '/') && NoneHidden(cs[..n] + cs[n + 1..])
  {
    assert forall i :: 0 <= i < n ==> cs[..n][i] == cs[i] && !Hidden(cs[i]);
  }

  lemma RootStays()
    ensures DropDots("/") == "/"
  {
    assert !At("/", "/.", 0) && !At("/", "/.", 1);
  }

  /** One round of the second loop. */
  lemma OneDot(pre: seq<string>, post: seq<string>)
    requires Free(pre, ".") && pre + post != []
    ensures DropDots(Join(pre + ["."] + post)) == DropDots(Join(pre + post))
  {
    assert "/" + "." == "/.";
    var cs := pre + ["."] + post;
    assert cs[|pre|] == "." && cs[..|pre|] == pre && cs[|pre| + 1..] == post;
    AroundFirst(cs, |pre|, ".");
    JoinSplit(pre, post);
    JoinLonger(pre);
    JoinLonger(post);
    hide Find, Join;
  }

  lemma NothingToDrop(cs: seq<string>)
    requires Free(cs, ".")
    ensures DropDots(Join(cs)) == Join(cs)
  {
    assert "/" + "." == "/.";
    FoundNowhere(cs, ".");
  }

  lemma OnlyDot()
    ensures DropDots(Join(["."])) == "/"
  {
    assert "/" + "." == "/.";
    AroundFirst(["."], 0, ".");
    assert Join(["."]) == "/." by { assert ["."][1..] == []; }
    RootStays();
  }

  /** The second loop removes the "." components. */
  lemma {:induction false} DropDotsRemoves(cs: seq<string>)
    requires Components(cs, '/') && NoneHidden(cs)
    ensures DropDots(Join(cs)) == if cs != [] && WithoutDots(cs) == [] then "/" else Join(WithoutDots(cs))
    decreases |cs|
  {
    hide DropDots, Join, Find;
    var n := Leading(cs, ".");
    VisibleParts(cs, n);
    if n == |cs| {
      assert cs[..n] == cs;
      NoDots(cs);
      NothingToDrop(cs);
    } else {
      var pre, post := cs[..n], cs[n + 1..];
      assert cs == pre + ["."] + post;
      WithoutFirstDot(pre, post);
      if pre + post == [] {
        assert cs == ["."];
        OnlyDot();
      } else {
        OneDot(pre, post);
        DropDotsRemoves(pre + post);
      }
    }
  }

  lemma JoinLonger(cs: seq<string>)
    ensures cs != [] ==> |Join(cs)| > 0
  {
  }

  /** What is left on the stack is a component that was there, and not "..". */
  lemma {:induction false} FollowOrigin(stack: seq<string>, cs: seq<string>)
    requires Components(stack + cs, '/') && forall i :: 0 <= i < |stack| ==> stack[i] != ".."
    ensures Components(Follow(stack, cs), '/')
      && forall i :: 0 <= i < |Follow(stack, cs)| ==> Follow(stack, cs)[i] != ".."
    decreases |cs|
  {
    assert forall i :: 0 <= i < |stack| ==> (stack + cs)[i] == stack[i];
    if cs != [] {
      assert forall i :: 0 <= i < |cs| ==> (stack + cs)[|stack| + i] == cs[i];
      var stack' := if cs[0] != ".." then stack + [cs[0]] else if stack == [] then [] else stack[..|stack| - 1];
      FollowOrigin(stack', cs[1..]);
    }
  }

  lemma {:induction false} DropDotsClean(s: string)
    ensures Find(DropDots(s), "/.") == None
    decreases |s|
  {
    match Find(s, "/.")
    case None =>
    case Some(off) =>
      if off == 0 && |s| == 2 {
        RootStays();
      } else {
        DropDotsClean(s[..off] + s[off + 2..]);
      }
  }

  lemma {:induction false} HiddenShows(cs: seq<string>, k: nat)
    requires k < |cs| && StartsWith(cs[k], ".")
    ensures Find(Join(cs), "/.").Some?
    decreases |cs|
  {
    var pre, c, post := cs[..k], cs[k], cs[k + 1..];
    assert cs == pre + [c] + post;
    JoinSnoc(pre, c);
    JoinSplit(pre + [c], post);
    assert c[0] == c[..1][0];
    assert Join(cs)[|Join(pre)|..|Join(pre)| + 2] == "/.";
    assert At(Join(cs), "/.", |Join(pre)|);
  }

  lemma {:induction false} KeptByWithoutDots(cs: seq<string>, k: nat)
    requires k < |cs| && cs[k] != "."
    ensures exists j :: 0 <= j < |WithoutDots(cs)| && WithoutDots(cs)[j] == cs[k]
  {
    var pre, post := cs[..k], cs[k + 1..];
    assert cs == pre + ([cs[k]] + post);
    WithoutDotsSplit(pre, [cs[k]] + post);
    assert WithoutDots(cs)[|WithoutDots(pre)|] == cs[k];
  }

  /** On an absolute path whose components do not start with ".." unless they are "..", no assert
      fails, and the result is the intended path exactly when no hidden name is left in it. */
  lemma NormaliseExact(cs: seq<string>)
    requires Tame(cs)
    ensures Normalise(Join(cs)).Some?
    ensures Normalise(Join(cs)) == Some(Meaning(cs)) <==> NoneHidden(Follow([], cs))
  {
    DropDotDotsFollows(cs);
    var stack := Follow([], cs);
    assert [] + cs == cs;
    FollowOrigin([], cs);
    if NoneHidden(stack) {
      DropDotsRemoves(stack);
    } else {
      var k :| 0 <= k < |stack| && Hidden(stack[k]);
      KeptByWithoutDots(stack, k);
      var j :| 0 <= j < |WithoutDots(stack)| && WithoutDots(stack)[j] == stack[k];
      HiddenShows(WithoutDots(stack), j);
      DropDotsClean(Join(stack));
    }
  }

  /** On any path of components the program stops exactly if the fold does. */
  lemma StopsExactly(cs: seq<string>)
    requires Components(cs, '/')
    ensures Normalise(Join(cs)).None? <==> Fold("", [], cs).None?
    ensures Normalise(Join(cs)).Some? ==> Normalise(Join(cs)) == Some(DropDots(Fold("", [], cs).value))
  {
    LoopIsFold("", [], cs);
    JoinNone();
    assert "" + "" + Join(cs) == Join(cs);
  }

  /** A component is safe, whatever tame paths stand around it, exactly if it is ".." or does not start with "..". */
  lemma SafeExactly(c: string)
    requires Component(c, '/')
    ensures (forall pre, post :: Tame(pre) && Tame(post) ==> Normalise(Join(pre + [c] + post)).Some?)
      <==> c == ".." || !StartsWith(c, "..")
  {
    if c == ".." || !StartsWith(c, "..") {
      forall pre, post | Tame(pre) && Tame(post) ensures Normalise(Join(pre + [c] + post)).Some? {
        assert Tame(pre + [c] + post);
        NormaliseExact(pre + [c] + post);
      }
    } else {
      DotDotAfter(c);
      assert Tame([]) && Tame([".."]) && Normalise(Join([] + [c] + [".."])) == None;
    }
  }

  /** A ".." after any component that starts with ".." and goes on stops the program. */
  lemma DotDotAfter(c: string)
    requires Component(c, '/') && StartsWith(c, "..") && c != ".."
    ensures Normalise(Join([] + [c] + [".."])) == None
  {
    var cs := [] + [c] + [".."];
    assert cs == [c, ".."] && cs[1..] == [".."] && cs[0] == c;
    DotDotRest(c);
    assert Components(cs, '/');
    StopsExactly(cs);
    hide Normalise;
    assert c[2..] != "";
    assert Fold("", [], cs) == Fold(c[2..], [], [".."]);
    assert StartsWith("..", "..");
    assert Fold(c[2..], [], [".."]) == None;
  }

  /** A ".." here takes a "." off the stack, where POSIX takes the name below it. */
  predicate DotOverName(stack: seq<string>) {
    stack != [] && stack[|stack| - 1] == "." && exists i :: 0 <= i < |stack| && stack[i] != "."
  }

  lemma {:induction false} FollowSnoc(stack: seq<string>, cs: seq<string>, c: string)
    ensures var r := Follow(stack, cs);
      Follow(stack, cs + [c]) == if c != ".." then r + [c] else if r == [] then [] else r[..|r| - 1]
    decreases |cs|
  {
    if cs == [] {
      assert cs + [c] == [c] && [c][1..] == [];
      FollowedAll(if c != ".." then stack + [c] else if stack == [] then [] else stack[..|stack| - 1]);
    } else {
      assert (cs + [c])[1..] == cs[1..] + [c] && (cs + [c])[0] == cs[0];
      var next := if cs[0] != ".." then stack + [cs[0]] else if stack == [] then [] else stack[..|stack| - 1];
      FollowSnoc(next, cs[1..], c);
    }
  }

  lemma WithoutDotsSnoc(cs: seq<string>, c: string)
    ensures WithoutDots(cs + [c]) == WithoutDots(cs) + if c == "." then [] else [c]
  {
    WithoutDotsSplit(cs, [c]);
    assert [c][1..] == [] && WithoutDots([]) == [];
    assert WithoutDots([c]) == if c == "." then [] else [c];
  }

  lemma {:induction false} OnlyDots(stack: seq<string>)
    ensures WithoutDots(stack) == [] <==> forall i :: 0 <= i < |stack| ==> stack[i] == "."
  {
    if stack != [] {
      OnlyDots(stack[1..]);
      assert forall i :: 1 <= i < |stack| ==> stack[i] == stack[1..][i - 1];
    }
  }

  /** While the program and POSIX agree, one more component keeps them so exactly if it is no ".." over such a ".". */
  lemma NextAgrees(stack: seq<string>, posix: seq<string>, c: string)
    requires WithoutDots(stack) == posix
    ensures var stack' := if c != ".." then stack + [c] else if stack == [] then [] else stack[..|stack| - 1];
      var posix' := if c == "." then posix else if c != ".." then posix + [c]
                    else if posix == [] then [] else posix[..|posix| - 1];
      WithoutDots(stack') == posix' <==> !(c == ".." && DotOverName(stack))
  {
    WithoutDotsSnoc(stack, c);
    OnlyDots(stack);
    if stack != [] {
      var init, last := stack[..|stack| - 1], stack[|stack| - 1];
      assert stack == init + [last];
      WithoutDotsSnoc(init, last);
      assert posix == WithoutDots(init) + if last == "." then [] else [last];
    }
  }

  /** "." means the current directory at every point of the path, exactly if no ".." meets a "." with a name below
      it. */
  lemma {:induction false} DotsExactly(cs: seq<string>)
    ensures (forall k :: 0 <= k <= |cs| ==> WithoutDots(Follow([], cs[..k])) == Follow([], WithoutDots(cs[..k])))
      <==> (forall k :: 0 <= k < |cs| && cs[k] == ".." ==> !DotOverName(Follow([], cs[..k])))
    decreases |cs|
  {
    hide Follow, WithoutDots, DotOverName;
    assert cs[..0] == [];
    FollowedAll([]);
    assert WithoutDots([]) == [] by { OnlyDots([]); }
    for n := 0 to |cs|
      invariant (forall k :: 0 <= k <= n ==> WithoutDots(Follow([], cs[..k])) == Follow([], WithoutDots(cs[..k])))
        <==> (forall k :: 0 <= k < n && cs[k] == ".." ==> !DotOverName(Follow([], cs[..k])))
    {
      assert cs[..n + 1] == cs[..n] + [cs[n]];
      if WithoutDots(Follow([], cs[..n])) == Follow([], WithoutDots(cs[..n])) {
        FollowSnoc([], cs[..n], cs[n]);
        WithoutDotsSnoc(cs[..n], cs[n]);
        FollowSnoc([], WithoutDots(cs[..n]), cs[n]);
        assert WithoutDots(cs[..n]) + [] == WithoutDots(cs[..n]);
        NextAgrees(Follow([], cs[..n]), Follow([], WithoutDots(cs[..n])), cs[n]);
      }
    }
  }

  /** Otherwise it can differ: "/a/./.." stays in /a, where POSIX is back at the root. */
  lemma DotIsPopped()
    ensures WithoutDots(Follow([], ["a", ".", ".."])) == ["a"]
    ensures Follow([], WithoutDots(["a", ".", ".."])) == []
  {
    OnlyDots([]);
    FollowedAll([]);
    hide Follow, WithoutDots;
    assert [] + ["a"] == ["a"] && ["a"] + ["."] == ["a", "."] && ["a", "."] + [".."] == ["a", ".", ".."];
    FollowSnoc([], [], "a");
    FollowSnoc([], ["a"], ".");
    FollowSnoc([], ["a", "."], "..");
    assert ["a", "."][..1] == ["a"];
    WithoutDotsSnoc([], "a");
    WithoutDotsSnoc(["a"], ".");
    WithoutDotsSnoc(["a", "."], "..");
    assert ["a"] + [".."] == ["a", ".."] && ["a"] + [] == ["a"];
    FollowSnoc([], ["a"], "..");
  }

  // ---------- in place ----------

  lemma NulIsAtEnd(s: string, j: nat)
    requires NulFree(s) && j <= |s|
    ensures (s[j..] + ['\0'])[0] == '\0' <==> j == |s|
  {
    assert forall k :: 0 <= k < |s| ==> s[k] in s;
  }

  /** Moves the rest of the text, from src on, down to dst. */
  method ShiftDown(buff: array<char>, dst: nat, src: nat, ghost s: string)
    requires Holds(buff[..], s) && NulFree(s) && dst <= src <= |s|
    modifies buff
    ensures Holds(buff[..], s[..dst] + s[src..])
  {
    var i, j := dst, src;
    while buff[j] != '\0'
      invariant src <= j <= |s| && i == dst + (j - src)
      invariant buff[..i] == s[..dst] + s[src..j]
      invariant buff[j..|s| + 1] == s[j..] + ['\0']
      decreases |s| - j
    {
      NextIs(buff[..], s, j);
      buff[i] := buff[j];
      Appended(buff[..i + 1], buff[..i], s, dst, src, j);
      i, j := i + 1, j + 1;
    }
    NextIs(buff[..], s, j);
    buff[i] := '\0';
    assert s[src..|s|] == s[src..];
  }

  lemma NextIs(a: seq<char>, s: string, j: nat)
    requires |s| < |a| && j <= |s| && a[j..|s| + 1] == s[j..] + ['\0'] && NulFree(s)
    ensures a[j] == '\0' <==> j == |s|
    ensures j < |s| ==> a[j] == s[j] && a[j + 1..|s| + 1] == s[j + 1..] + ['\0']
  {
    assert a[j] == a[j..|s| + 1][0];
    NulIsAtEnd(s, j);
    assert a[j + 1..|s| + 1] == a[j..|s| + 1][1..];
  }

  lemma Appended(now: seq<char>, was: seq<char>, s: string, dst: nat, src: nat, j: nat)
    requires dst <= src <= j < |s| && was == s[..dst] + s[src..j] && |now| > 0
    requires now == was + [s[j]]
    ensures now == s[..dst] + s[src..j + 1]
  {
    assert s[src..j + 1] == s[src..j] + [s[j]];
  }

  datatype Verdict = Done | Exits | AssertFails

  method RemoveDotDots(buff: array<char>, ghost s: string) returns (v: Verdict)
    requires Holds(buff[..], s) && NulFree(s)
    modifies buff
    ensures match DropDotDots(s)
            case None => v == AssertFails
            case Some(t) => v == Done && Holds(buff[..], t) && NulFree(t)
  {
    ghost var t := s;
    while true
      invariant Holds(buff[..], t) && NulFree(t) && DropDotDots(t) == DropDotDots(s)
      decreases |t|
    {
      HeldText(buff[..], t);
      var text := Text(buff[..]);
      var found := Find(text, "/..");
      if found.None? {
        return Done;
      }
      var off := found.value;
      if off == 0 {
        ShiftDown(buff, 0, 3, t);
        assert t[..0] + t[3..] == t[3..];
        t := t[3..];
      } else {
        var slash := LastIndex(text[..off], '/');
        if slash.None? {
          return AssertFails;
        }
        ShiftDown(buff, slash.value, off + 3, t);
        t := t[..slash.value] + t[off + 3..];
      }
    }
  }

  method RemoveDots(buff: array<char>, ghost s: string)
    requires Holds(buff[..], s) && NulFree(s)
    modifies buff
    ensures Holds(buff[..], DropDots(s))
  {
    ghost var t := s;
    while true
      invariant Holds(buff[..], t) && NulFree(t) && DropDots(t) == DropDots(s)
      decreases |t|
    {
      HeldText(buff[..], t);
      var text := Text(buff[..]);
      var found := Find(text, "/.");
      if found.None? {
        return;
      }
      var off := found.value;
      if off == 0 && |text| == 2 {
        Store(buff, 0, "/");
        assert buff[..1] == buff[0..1] == "/";
        t := "/";
      } else {
        ShiftDown(buff, off, off + 2, t);
        t := t[..off] + t[off + 2..];
      }
    }
  }

  /** strcpy, or strcat to the text s. */
  method Append(buff: array<char>, at: nat, ghost s: string, t: string)
    requires at == |s| && |s| + |t| < buff.Length && (s == "" || Holds(buff[..], s))
    modifies buff
    ensures Holds(buff[..], s + t)
  {
    Store(buff, at, t);
    assert buff[..|s + t|] == s + t;
  }

  /** The path before it is polished: relative names start at the current directory. */
  function Absolute(name: string, cwd: string): string {
    if name != "" && name[0] == '/' then name else cwd + "/" + name
  }

  /** A relative name is followed from the current directory on: the path is the directory's with the name's components
      behind it. An absolute one is the path itself. */
  lemma AbsoluteFollows(ds: seq<string>, cs: seq<string>)
    requires Components(cs, '/') && cs != []
    ensures Absolute(Join(cs)[1..], Join(ds)) == Join(ds + cs)
    ensures Absolute(Join(cs), Join(ds)) == Join(cs)
    ensures Follow([], ds + cs) == Follow(Follow([], ds), cs)
  {
    hide Join, Follow;
    JoinRest(cs);
    JoinSplit(ds, cs);
    assert Join(ds) + "/" + Join(cs)[1..] == Join(ds) + ("/" + Join(cs)[1..]);
    FollowSplit([], ds, cs);
  }

  lemma JoinRest(cs: seq<string>)
    requires Components(cs, '/') && cs != []
    ensures |Join(cs)| >= 2 && Join(cs)[0] == '/' && Join(cs)[1] != '/' && Join(cs) == "/" + Join(cs)[1..]
  {
    assert Component(cs[0], '/');
    var c, rest := cs[0], Join(cs[1..]);
    assert c[0] in c;
    assert Join(cs) == "/" + c + rest;
    hide Join;
  }

  lemma {:induction false} FollowSplit(stack: seq<string>, ds: seq<string>, cs: seq<string>)
    ensures Follow(stack, ds + cs) == Follow(Follow(stack, ds), cs)
    decreases |cs|
  {
    if cs == [] {
      assert ds + cs == ds;
      FollowedAll(Follow(stack, ds));
    } else {
      var init, last := cs[..|cs| - 1], cs[|cs| - 1];
      assert ds + cs == ds + init + [last] && cs == init + [last];
      FollowSplit(stack, ds, init);
      FollowSnoc(stack, ds + init, last);
      FollowSnoc(Follow(stack, ds), init, last);
    }
  }

  /** simfs_absolute_name. cwd is None when getcwd fails. */
  method AbsoluteName(name: string, cwd: Option<string>, buff: array<char>) returns (v: Verdict)
    requires NulFree(name) && |name| < buff.Length
    requires cwd.Some? ==> NulFree(cwd.value)
    modifies buff
    ensures v.Exits? <==> (name == "" || name[0] != '/') && (cwd.None? || |cwd.value| + |name| + 2 > buff.Length)
    ensures v != Exits ==> var path := Absolute(name, if cwd.Some? then cwd.value else "");
            match Normalise(path)
            case None => v == AssertFails
            case Some(t) => v == Done && Holds(buff[..], t)
  {
    Append(buff, 0, "", name);
    ghost var path := name;
    if name == "" || name[0] != '/' {
      if cwd.None? || |cwd.value| + |name| + 1 + 1 > buff.Length {
        return Exits;
      }
      Append(buff, 0, "", cwd.value);
      Append(buff, |cwd.value|, cwd.value, "/");
      Append(buff, |cwd.value| + 1, cwd.value + "/", name);
      path := cwd.value + "/" + name;
    }
    v := RemoveDotDots(buff, path);
    if v == Done {
      RemoveDots(buff, DropDotDots(path).value);
    }
  }
}
