/** Paths as stacks of components, and what the path calls compute in those terms for every input. */
module PathAlgebra {
  import opened VmStatus

  const MAX_PATH: nat := 256

  datatype PathResult = Path(path: string) | Refused(status: Status)

  // ---------- Components ----------

  /** The pieces between slashes; n slashes make n + 1 pieces, some of which may be empty. */
  function Split(s: string): (r: seq<string>)
    ensures |r| >= 1
    ensures forall c :: c in r ==> '/' !in c
  {
    if s == "" then [""]
    else if s[0] == '/' then [""] + Split(s[1..])
    else
      var r := Split(s[1..]);
      [[s[0]] + r[0]] + r[1..]
  }

  function Join(cs: seq<string>): string
    requires |cs| >= 1
  {
    if |cs| == 1 then cs[0] else cs[0] + "/" + Join(cs[1..])
  }

  lemma {:induction false} JoinSplit(s: string)
    ensures Join(Split(s)) == s
  {
    if s != "" {
      JoinSplit(s[1..]);
      var r := Split(s[1..]);
      if s[0] != '/' {
        assert ([[s[0]] + r[0]] + r[1..])[1..] == r[1..];
        assert Join(Split(s)) == [s[0]] + Join(r);
      } else {
        assert ([""] + r)[1..] == r;
      }
    }
  }

  lemma {:induction false} SplitOne(c: string)
    requires '/' !in c
    ensures Split(c) == [c]
  {
    if c != "" {
      SplitOne(c[1..]);
      assert c == [c[0]] + c[1..];
    }
  }

  lemma SplitSlashFirst(v: string)
    ensures Split("/" + v) == [""] + Split(v)
  {
    assert ("/" + v)[1..] == v;
  }

  lemma SplitOtherFirst(x: char, w: string)
    requires x != '/'
    ensures Split([x] + w) == [[x] + Split(w)[0]] + Split(w)[1..]
  {
    assert ([x] + w)[1..] == w;
  }

  /** A slash separates the pieces before it from the pieces after it. */
  lemma {:induction false} SplitAtSlash(u: string, v: string)
    ensures Split(u + "/" + v) == Split(u) + Split(v)
  {
    if u == "" {
      SplitSlashFirst(v);
      assert "" + "/" + v == "/" + v;
    } else {
      var x, w := u[0], u[1..];
      assert u == [x] + w;
      SplitAtSlash(w, v);
      var s := w + "/" + v;
      assert u + "/" + v == [x] + s;
      if x == '/' {
        SplitSlashFirst(s);
        SplitSlashFirst(w);
        hide Split;
        assert [""] + (Split(w) + Split(v)) == ([""] + Split(w)) + Split(v);
      } else {
        SplitOtherFirst(x, s);
        SplitOtherFirst(x, w);
        hide Split;
        GlueFirst(x, Split(w), Split(v));
      }
    }
  }

  lemma GlueFirst(x: char, a: seq<string>, b: seq<string>)
    requires |a| >= 1
    ensures [[x] + (a + b)[0]] + (a + b)[1..] == ([[x] + a[0]] + a[1..]) + b
  {
    assert (a + b)[1..] == a[1..] + b;
  }

  lemma {:induction false} SplitJoin(cs: seq<string>)
    requires |cs| >= 1 && forall c :: c in cs ==> '/' !in c
    ensures Split(Join(cs)) == cs
  {
    SplitOne(cs[0]);
    if |cs| > 1 {
      SplitJoin(cs[1..]);
      SplitAtSlash(cs[0], Join(cs[1..]));
    }
  }

  // ---------- Stacks ----------

  /** The text of a stack while it is being built: every component after its slash, and with `slash` one
      slash more.  The empty stack is the root in either case. */
  function Rep(stack: seq<string>, slash: bool): (r: string)
    ensures |r| >= 1 && r[0] == '/'
    ensures stack != [] && slash ==> |r| >= 2 && r[|r| - 1] == '/'
    decreases |stack|
  {
    if stack == [] then "/"
    else
      var k := |stack| - 1;
      Rep(stack[..k], true) + stack[k] + if slash then "/" else ""
  }

  function Render(stack: seq<string>): string {
    Rep(stack, false)
  }

  lemma RepPush(stack: seq<string>, c: string, slash: bool)
    ensures Rep(stack + [c], slash) == Rep(stack, true) + c + if slash then "/" else ""
  {
    assert (stack + [c])[..|stack|] == stack;
  }

  lemma RepSlash(stack: seq<string>)
    requires stack != []
    ensures Rep(stack, true) == Rep(stack, false) + "/"
  {
  }

  /** The pieces of an absolute path, with the flag for a final slash. */
  function Parse(abs: string): (r: (seq<string>, bool))
    requires abs != "" && abs[0] == '/'
  {
    var cs := Split(abs[1..]);
    var k := |cs| - 1;
    if cs[k] == "" then (cs[..k], true) else (cs, false)
  }

  lemma {:induction false} RepIsJoin(stack: seq<string>)
    requires stack != []
    ensures Rep(stack, false) == "/" + Join(stack)
    decreases |stack|
  {
    var k := |stack| - 1;
    if k > 0 {
      RepIsJoin(stack[..k]);
      RepSlash(stack[..k]);
      JoinLast(stack);
      assert Rep(stack, false) == "/" + Join(stack[..k]) + "/" + stack[k];
    } else {
      RepPush([], stack[0], false);
      assert [] + [stack[0]] == stack;
    }
  }

  lemma {:induction false} JoinLast(cs: seq<string>)
    requires |cs| >= 2
    ensures Join(cs) == Join(cs[..|cs| - 1]) + "/" + cs[|cs| - 1]
  {
    if |cs| > 2 {
      JoinLast(cs[1..]);
      assert cs[1..][..|cs| - 2] == cs[1..|cs| - 1] == cs[..|cs| - 1][1..];
    }
  }

  /** An absolute path is the text of its own pieces. */
  lemma ParseRep(abs: string)
    requires abs != "" && abs[0] == '/'
    ensures Rep(Parse(abs).0, Parse(abs).1) == abs
    ensures Parse(abs).1 || (Parse(abs).0 != [] && Parse(abs).0[|Parse(abs).0| - 1] != "")
    ensures forall c :: c in Parse(abs).0 ==> '/' !in c
  {
    var cs := Split(abs[1..]);
    JoinSplit(abs[1..]);
    RepIsJoin(cs);
    RepPush(cs[..|cs| - 1], cs[|cs| - 1], false);
    assert cs[..|cs| - 1] + [cs[|cs| - 1]] == cs;
    assert abs == "/" + abs[1..];
    forall c | c in Parse(abs).0 ensures '/' !in c { assert c in cs; }
  }

  /** A component of a canonical path. */
  predicate Name(c: string) {
    c != "" && c != "." && c != ".." && '/' !in c && '\0' !in c
  }

  predicate Names(cs: seq<string>) {
    forall c :: c in cs ==> Name(c)
  }

  lemma ParseRender(stack: seq<string>)
    requires Names(stack)
    ensures Parse(Render(stack)) == (stack, stack == [])
  {
    if stack == [] {
      assert Render(stack)[1..] == "";
    } else {
      RepIsJoin(stack);
      SplitJoin(stack);
      assert Render(stack)[1..] == Join(stack);
      assert stack[|stack| - 1] in stack;
    }
  }

  lemma RenderInjective(a: seq<string>, b: seq<string>)
    requires Names(a) && Names(b) && Render(a) == Render(b)
    ensures a == b
  {
    ParseRender(a);
    ParseRender(b);
  }

  // ---------- SimplifyPath ----------

  datatype Walked = Done(stack: seq<string>, slash: bool) | Stopped(status: Status)

  /** Follows the pieces of a relative path: "." stays, ".." removes the last component and fails at the
      root, any other piece is added if the text stays within the limit.  A piece may be empty. */
  function Walk(stack: seq<string>, slash: bool, cs: seq<string>): Walked
    requires |cs| >= 1
    decreases |cs|
  {
    var c := cs[0];
    var last := |cs| == 1;
    if last && (c == "" || c == ".") then Done(stack, slash)
    else if c == "." then Walk(stack, slash, cs[1..])
    else if c == ".." then
      if stack == [] then Stopped(Failure)
      else if last then Done(stack[..|stack| - 1], true)
      else Walk(stack[..|stack| - 1], true, cs[1..])
    else if |Rep(stack + [c], !last)| > MAX_PATH then Stopped(InvalidParameter)
    else if last then Done(stack + [c], false)
    else Walk(stack + [c], true, cs[1..])
  }

  function IsAbsolute(p: string): bool {
    p != "" && p[0] == '/'
  }

  /** What `VMFileSystemSimplifyPath` computes, for every pair of strings. */
  function Simplify(abs: string, rel: string): PathResult {
    if IsAbsolute(rel) || !IsAbsolute(abs) || |abs| > MAX_PATH then Refused(InvalidParameter)
    else
      var (stack, slash) := Parse(abs);
      match Walk(stack, slash, Split(rel))
      case Done(s, _) => Path(Render(s))
      case Stopped(status) => Refused(status)
  }

  /** Whether SimplifyPath writes beyond MAX_PATH characters on the way: the terminator of a text that fills
      the buffer, or the slash that is put before the next piece ahead of the test of the length. */
  predicate Spills(stack: seq<string>, slash: bool, cs: seq<string>)
    requires |cs| >= 1
    decreases |cs|
  {
    var c := cs[0];
    var last := |cs| == 1;
    if last && (c == "" || c == ".") then |Render(stack)| >= MAX_PATH
    else if c == "." then Spills(stack, slash, cs[1..])
    else if c == ".." then
      if stack == [] then false
      else if last then |Render(stack[..|stack| - 1])| >= MAX_PATH
      else Spills(stack[..|stack| - 1], true, cs[1..])
    else if |Rep(stack, true)| > MAX_PATH then true
    else if |Rep(stack + [c], !last)| > MAX_PATH then false
    else if last then |Render(stack + [c])| >= MAX_PATH
    else Spills(stack + [c], true, cs[1..])
  }

  predicate SimplifySpills(abs: string, rel: string) {
    && !IsAbsolute(rel) && IsAbsolute(abs) && |abs| <= MAX_PATH
    && Spills(Parse(abs).0, Parse(abs).1, Split(rel))
  }

  /** The first piece that is not "." is one to be added. */
  predicate AddsFirst(cs: seq<string>) {
    cs != [] && (if cs[0] == "." then AddsFirst(cs[1..]) else cs[0] != ".." && (cs[0] != "" || |cs| > 1))
  }

  lemma {:induction false} SpillsWhen(stack: seq<string>, slash: bool, cs: seq<string>)
    requires |cs| >= 1 && |Rep(stack, slash)| <= MAX_PATH
    ensures Spills(stack, slash, cs) <==>
              || (Walk(stack, slash, cs).Done? && |Render(Walk(stack, slash, cs).stack)| >= MAX_PATH)
              || (|Rep(stack, true)| > MAX_PATH && AddsFirst(cs))
    decreases |cs|
  {
    var c, rest := cs[0], cs[1..];
    if |cs| > 1 && c == "." {
      SpillsWhen(stack, slash, rest);
    } else if |cs| > 1 && c == ".." {
      if stack != [] { SpillsWhen(stack[..|stack| - 1], true, rest); }
    } else if c != "." && c != ".." {
      RepPush(stack, c, |cs| > 1);
      if |cs| > 1 && |Rep(stack + [c], true)| <= MAX_PATH { SpillsWhen(stack + [c], true, rest); }
    }
  }

  /** SimplifyPath stays within MAX_PATH characters unless the simplified path fills them all, or the base
      fills them without a final slash and the relative path begins with a piece to be added. */
  lemma SimplifySpillsIff(abs: string, rel: string)
    ensures SimplifySpills(abs, rel) <==>
              || (Simplify(abs, rel).Path? && |Simplify(abs, rel).path| >= MAX_PATH)
              || (!IsAbsolute(rel) && IsAbsolute(abs) && |abs| == MAX_PATH && abs[|abs| - 1] != '/'
                  && AddsFirst(Split(rel)))
  {
    if !IsAbsolute(rel) && IsAbsolute(abs) && |abs| <= MAX_PATH {
      var (stack, slash) := Parse(abs);
      ParseRep(abs);
      EndOfText(stack, slash, abs);
      hide Walk, Spills, Split, Rep, Render, Parse;
      SpillsWhen(stack, slash, Split(rel));
    }
  }

  lemma EndOfText(stack: seq<string>, slash: bool, text: string)
    requires Rep(stack, slash) == text && (forall c :: c in stack ==> '/' !in c)
    requires slash || (stack != [] && stack[|stack| - 1] != "")
    ensures |Rep(stack, true)| == |text| + if text[|text| - 1] == '/' then 0 else 1
  {
    if stack != [] && !slash {
      var c := stack[|stack| - 1];
      RepSlash(stack);
      assert c in stack && text[|text| - 1] == c[|c| - 1] && c[|c| - 1] in c;
    }
  }

  /** The plain meaning of a relative path, without any limit; None is a ".." at the root. */
  datatype Folded = Stack(stack: seq<string>) | Underflow

  function Fold(stack: seq<string>, cs: seq<string>): Folded
    decreases |cs|
  {
    if cs == [] then Stack(stack)
    else if cs[0] == "." then Fold(stack, cs[1..])
    else if cs[0] == ".." then
      if stack == [] then Underflow else Fold(stack[..|stack| - 1], cs[1..])
    else Fold(stack + [cs[0]], cs[1..])
  }

  /** The pieces of a relative path that does not start with a slash and has no doubled slash: those
      that are not empty, which only the one after a final slash can be. */
  function Pieces(rel: string): seq<string> {
    Trimmed(Split(rel))
  }

  predicate NoDoubledSlash(rel: string) {
    forall i :: 0 <= i < |rel| && rel[i] == '/' ==> i > 0 && rel[i - 1] != '/'
  }

  lemma {:induction false} PiecesNotEmpty(rel: string)
    requires forall i :: 0 < i < |rel| && rel[i] == '/' ==> rel[i - 1] != '/'
    ensures forall i :: 1 <= i < |Split(rel)| - 1 ==> Split(rel)[i] != ""
    ensures rel != "" && rel[0] != '/' ==> Split(rel)[0] != ""
  {
    if rel != "" {
      PiecesNotEmpty(rel[1..]);
      var r := Split(rel[1..]);
      if rel[0] == '/' && |rel| > 1 { assert rel[1..][0] == rel[1]; }
    }
  }

  /** The pieces of a list that are not the empty one after a final slash. */
  function Trimmed(cs: seq<string>): seq<string>
    requires |cs| >= 1
  {
    if cs[|cs| - 1] == "" then cs[..|cs| - 1] else cs
  }

  predicate SameOutcome(w: Walked, f: Folded) {
    match f
    case Stack(t) => w.Done? && w.stack == t
    case Underflow => w == Stopped(Failure)
  }

  lemma WalkIsFoldAtLast(stack: seq<string>, slash: bool, c: string)
    requires |Rep(stack + [c], false)| <= MAX_PATH
    ensures SameOutcome(Walk(stack, slash, [c]), Fold(stack, Trimmed([c])))
  {
    assert Trimmed([c]) == if c == "" then [] else [c];
    assert [c][1..] == [];
    assert forall s :: Fold(s, []) == Stack(s);
    hide Rep;
  }

  lemma FirstPiece(stack: seq<string>, slash: bool, cs: seq<string>)
    requires |cs| > 1
    ensures Walk(stack, slash, cs) ==
            if cs[0] == "." then Walk(stack, slash, cs[1..])
            else if cs[0] == ".." then
              (if stack == [] then Stopped(Failure) else Walk(stack[..|stack| - 1], true, cs[1..]))
            else if |Rep(stack + [cs[0]], true)| > MAX_PATH then Stopped(InvalidParameter)
            else Walk(stack + [cs[0]], true, cs[1..])
    ensures Fold(stack, Trimmed(cs)) ==
            if cs[0] == "." then Fold(stack, Trimmed(cs[1..]))
            else if cs[0] == ".." then (if stack == [] then Underflow else Fold(stack[..|stack| - 1], Trimmed(cs[1..])))
            else Fold(stack + [cs[0]], Trimmed(cs[1..]))
    ensures |Join(cs)| == |cs[0]| + 1 + |Join(cs[1..])|
  {
    hide Rep;
    assert Trimmed(cs)[1..] == Trimmed(cs[1..]);
  }

  lemma RepPop(stack: seq<string>)
    requires stack != []
    ensures |Rep(stack[..|stack| - 1], true)| <= |Rep(stack, true)|
  {
  }

  /** Within the limit the walk is the plain fold. */
  lemma {:induction false} WalkIsFold(stack: seq<string>, slash: bool, cs: seq<string>)
    requires |cs| >= 1 && |Rep(stack, true)| + |Join(cs)| <= MAX_PATH
    ensures SameOutcome(Walk(stack, slash, cs), Fold(stack, Trimmed(cs)))
    decreases |cs|
  {
    var c := cs[0];
    RepPush(stack, c, |cs| > 1);
    if |cs| == 1 {
      assert cs == [c];
      hide Walk, Fold, Rep;
      WalkIsFoldAtLast(stack, slash, c);
    } else {
      FirstPiece(stack, slash, cs);
      hide Walk, Fold, Rep, Join, Trimmed, SameOutcome;
      if c == "." {
        WalkIsFold(stack, slash, cs[1..]);
      } else if c == ".." {
        if stack == [] {
          assert SameOutcome(Stopped(Failure), Underflow) by { StoppedIsUnderflow(); }
        } else {
          RepPop(stack);
          WalkIsFold(stack[..|stack| - 1], true, cs[1..]);
        }
      } else {
        WalkIsFold(stack + [c], true, cs[1..]);
      }
    }
  }

  lemma StoppedIsUnderflow()
    ensures SameOutcome(Stopped(Failure), Underflow)
  {
  }

  /** What a stack can hold: a component of a canonical path, or an empty piece. */
  predicate Plain(c: string) {
    c == "" || Name(c)
  }

  predicate Plains(cs: seq<string>) {
    forall c :: c in cs ==> Plain(c)
  }

  predicate NoSeparator(cs: seq<string>) {
    forall c :: c in cs ==> '/' !in c && '\0' !in c
  }

  lemma {:induction false} FoldKeepsPlains(stack: seq<string>, cs: seq<string>)
    requires Plains(stack) && NoSeparator(cs)
    ensures Fold(stack, cs).Stack? ==> Plains(Fold(stack, cs).stack)
    decreases |cs|
  {
    if cs != [] {
      assert cs[0] in cs && forall c :: c in cs[1..] ==> c in cs;
      if cs[0] == "." {
        FoldKeepsPlains(stack, cs[1..]);
      } else if cs[0] == ".." {
        if stack != [] { FoldKeepsPlains(stack[..|stack| - 1], cs[1..]); }
      } else {
        FoldKeepsPlains(stack + [cs[0]], cs[1..]);
      }
    }
  }

  lemma {:induction false} SplitNoNul(s: string)
    requires '\0' !in s
    ensures forall c :: c in Split(s) ==> '\0' !in c
  {
    if s != "" {
      assert forall x :: x in s[1..] ==> x in s;
      SplitNoNul(s[1..]);
      var r := Split(s[1..]);
      assert r[0] in r && forall c :: c in r[1..] ==> c in r;
    }
  }

  lemma PiecesHaveNoSeparator(rel: string)
    requires '\0' !in rel
    ensures NoSeparator(Pieces(rel))
  {
    SplitNoNul(rel);
    assert forall c :: c in Pieces(rel) ==> c in Split(rel);
  }

  /** Canonical: the text of components that are not empty and not dots. */
  ghost predicate Canonical(text: string) {
    exists names :: Names(names) && text == Render(names)
  }

  /** A stack gives a canonical text exactly when it has no empty piece, or is one empty piece alone: the
      text is the root's then. */
  lemma CanonicalIff(stack: seq<string>)
    requires Plains(stack)
    ensures Canonical(Render(stack)) <==> "" !in stack || stack == [""]
  {
    if "" !in stack {
      assert Names(stack);
    } else if stack == [""] {
      OneEmptyIsRoot();
    } else if Canonical(Render(stack)) {
      var names :| Names(names) && Render(stack) == Render(names);
      SamePieces(stack, names);
    }
  }

  lemma OneEmptyIsRoot()
    ensures Render([""]) == Render([]) && Canonical(Render([""]))
  {
    assert [""][..0] == [];
    assert Names([]);
  }

  lemma SamePieces(stack: seq<string>, names: seq<string>)
    requires Plains(stack) && Names(names) && stack != [] && Render(stack) == Render(names)
    ensures stack == names || stack == [""]
  {
    RepIsJoin(stack);
    SplitJoin(stack);
    var text := Render(stack)[1..];
    assert text == Join(stack);
    if names == [] {
      assert text == "" && Split("") == [""];
    } else {
      RepIsJoin(names);
      SplitJoin(names);
      assert text == Join(names);
    }
  }

  /** For a canonical base and any relative path that fits the limit, simplifying is the fold of the
      relative path's pieces over the base: it fails exactly when a ".." meets the root, and otherwise gives
      a canonical path exactly when no empty piece is left, or only that. */
  lemma SimplifyRefinesFold(stack: seq<string>, rel: string)
    requires Names(stack) && !IsAbsolute(rel) && '\0' !in rel
    requires |Render(stack)| + 1 + |rel| <= MAX_PATH
    ensures match Fold(stack, Pieces(rel))
            case Stack(t) => Simplify(Render(stack), rel) == Path(Render(t))
                             && (Canonical(Render(t)) <==> "" !in t || t == [""])
            case Underflow => Simplify(Render(stack), rel) == Refused(Failure)
  {
    ParseRender(stack);
    JoinSplit(rel);
    if stack != [] { RepSlash(stack); }
    assert |Rep(stack, true)| <= |Render(stack)| + 1;
    assert Plains(stack);
    hide Walk, Fold, Rep, Join, Names, Plains, Canonical;
    WalkIsFold(stack, stack == [], Split(rel));
    PiecesHaveNoSeparator(rel);
    FoldKeepsPlains(stack, Pieces(rel));
    if Fold(stack, Pieces(rel)).Stack? { CanonicalIff(Fold(stack, Pieces(rel)).stack); }
  }

  /** An empty piece that is kept comes from a doubled slash. */
  lemma NoDoubledSlashIff(rel: string)
    requires !IsAbsolute(rel)
    ensures NoDoubledSlash(rel) <==> "" !in Pieces(rel)
  {
    if NoDoubledSlash(rel) {
      NoEmptyPiece(rel);
    } else {
      var i :| 0 < i < |rel| && rel[i] == '/' && rel[i - 1] == '/';
      hide NoDoubledSlash, Pieces;
      DoubledSlashPiece(rel, i);
    }
  }

  lemma NoEmptyPiece(rel: string)
    requires !IsAbsolute(rel) && NoDoubledSlash(rel)
    ensures "" !in Pieces(rel)
  {
    PiecesNotEmpty(rel);
    if rel == "" { SplitOne(rel); }
    hide Split, NoDoubledSlash;
  }

  lemma DoubledSlashPiece(rel: string, i: nat)
    requires 0 < i < |rel| && rel[i] == '/' && rel[i - 1] == '/'
    ensures "" in Pieces(rel)
  {
    var u, v := rel[..i - 1], rel[i + 1..];
    assert rel == u + "/" + ("/" + v);
    SplitAtSlash(u, "/" + v);
    SplitSlashFirst(v);
    var cs := Split(rel);
    assert cs == Split(u) + ([""] + Split(v));
    hide Split;
    var k := |Split(u)|;
    assert cs[k] == "" && k < |cs| - 1;
    assert Pieces(rel)[k] == "";
  }

  /** The pieces that a walk without ".." adds. */
  function Added(cs: seq<string>): seq<string> {
    if cs == [] then []
    else (if cs[0] == "." then [] else [cs[0]]) + Added(cs[1..])
  }

  lemma {:induction false} FoldWithoutUps(stack: seq<string>, cs: seq<string>)
    requires ".." !in cs
    ensures Fold(stack, cs) == Stack(stack + Added(cs)) && ("" in Added(cs) <==> "" in cs)
    decreases |cs|
  {
    if cs == [] {
      assert stack + [] == stack;
    } else {
      var c, rest := cs[0], cs[1..];
      assert cs == [c] + rest;
      if c == "." {
        FoldWithoutUps(stack, rest);
        assert [] + Added(rest) == Added(rest);
      } else {
        FoldWithoutUps(stack + [c], rest);
        assert (stack + [c]) + Added(rest) == stack + ([c] + Added(rest));
      }
    }
  }

  /** A relative path without ".." leads to a canonical path exactly when it has no doubled slash; or, from
      the root, when one empty piece is all that it adds. */
  lemma SimplifyKeepsCanonicalIff(stack: seq<string>, rel: string)
    requires Names(stack) && !IsAbsolute(rel) && '\0' !in rel && ".." !in Pieces(rel)
    requires |Render(stack)| + 1 + |rel| <= MAX_PATH
    ensures var r := Simplify(Render(stack), rel);
            && r == Path(Render(stack + Added(Pieces(rel))))
            && (Canonical(r.path) <==> NoDoubledSlash(rel) || (stack == [] && Added(Pieces(rel)) == [""]))
  {
    SimplifyRefinesFold(stack, rel);
    FoldWithoutUps(stack, Pieces(rel));
    NoDoubledSlashIff(rel);
    var added := Added(Pieces(rel));
    assert "" !in stack;
    hide *;
    EmptyOnTop(stack, added);
  }

  lemma EmptyOnTop(stack: seq<string>, added: seq<string>)
    requires "" !in stack
    ensures "" in stack + added <==> "" in added
    ensures stack + added == [""] <==> stack == [] && added == [""]
  {
    assert stack != [] ==> (stack + added)[0] == stack[0] && stack[0] in stack;
    assert stack == [] ==> stack + added == added;
  }

  /** From the root, "a//b" leads to "/a//b", which is not canonical. */
  lemma KeepsDoubledSlash()
    ensures Names([]) && Render([]) == "/"
    ensures Simplify("/", "a//b") == Path("/a//b") && !Canonical("/a//b")
  {
    hide *;
    PiecesOfAB();
    AddedOfAB();
    TextOfAB();
    RootText();
    SimplifyKeepsCanonicalIff([], "a//b");
  }

  lemma RootText()
    ensures Names([]) && Render([]) == "/"
    ensures !IsAbsolute("a//b") && '\0' !in "a//b" && !NoDoubledSlash("a//b")
    ensures |Render([])| + 1 + |"a//b"| <= MAX_PATH
  {
    assert "a//b"[1] == '/' && "a//b"[2] == '/';
  }

  lemma AddedOfAB()
    ensures var t := ["a", "", "b"]; Added(t) == t && [] + t == t && t != [""] && ".." !in t
  {
    assert ["a", "", "b"][1..] == ["", "b"] && ["", "b"][1..] == ["b"] && ["b"][1..] == [];
    assert Added(["b"]) == ["b"] && Added(["", "b"]) == ["", "b"];
  }

  lemma PiecesOfAB()
    ensures Pieces("a//b") == ["a", "", "b"]
  {
    assert "a//b" == "a" + "/" + "/b";
    SplitAtSlash("a", "/b");
    SplitSlashFirst("b");
    assert "/" + "b" == "/b";
    SplitOne("a");
    SplitOne("b");
    hide Split;
    assert Split("a//b") == ["a", "", "b"];
  }

  lemma TextOfAB()
    ensures Render(["a", "", "b"]) == "/a//b"
  {
    var t := ["a", "", "b"];
    RepIsJoin(t);
    assert t[1..] == ["", "b"] && ["", "b"][1..] == ["b"];
    assert Join(["b"]) == "b" && Join(["", "b"]) == "/b";
  }

  // ---------- Lengths ----------

  /** The characters of the components of a stack, each with its slash. */
  function Lengths(stack: seq<string>): nat
    decreases |stack|
  {
    if stack == [] then 0 else Lengths(stack[..|stack| - 1]) + 1 + |stack[|stack| - 1]|
  }

  /** The length of the text of a stack. */
  function TextLength(stack: seq<string>): nat {
    if stack == [] then 1 else Lengths(stack)
  }

  lemma {:induction false} RepLength(stack: seq<string>)
    ensures |Rep(stack, true)| == Lengths(stack) + 1
    ensures |Render(stack)| == TextLength(stack)
    decreases |stack|
  {
    if stack != [] { RepLength(stack[..|stack| - 1]); }
  }

  lemma LengthsPush(stack: seq<string>, c: string)
    ensures Lengths(stack + [c]) == Lengths(stack) + 1 + |c|
  {
    assert (stack + [c])[..|stack|] == stack;
  }

  /** Piece i is one to be added. */
  predicate Adds(cs: seq<string>, i: nat)
    requires i < |cs|
  {
    cs[i] != "." && cs[i] != ".." && (cs[i] != "" || i < |cs| - 1)
  }

  /** Piece i, if it is added to the fold of those before it, keeps the text and its slash within the limit. */
  predicate RoomFor(stack: seq<string>, cs: seq<string>, i: nat)
    requires i < |cs|
  {
    var f := Fold(stack, cs[..i]);
    Adds(cs, i) && f.Stack? ==> Lengths(f.stack) + 1 + |cs[i]| + (if i < |cs| - 1 then 1 else 0) <= MAX_PATH
  }

  /** There is room for every piece when its turn comes. */
  predicate Room(stack: seq<string>, cs: seq<string>) {
    forall i :: 0 <= i < |cs| ==> RoomFor(stack, cs, i)
  }

  /** The stack after the first piece. */
  function AfterFirst(stack: seq<string>, c: string): Folded {
    if c == "." then Stack(stack)
    else if c == ".." then (if stack == [] then Underflow else Stack(stack[..|stack| - 1]))
    else Stack(stack + [c])
  }

  lemma FoldFirst(stack: seq<string>, cs: seq<string>, i: nat)
    requires 0 < i <= |cs|
    ensures var f := AfterFirst(stack, cs[0]);
            Fold(stack, cs[..i]) == if f.Underflow? then Underflow else Fold(f.stack, cs[1..][..i - 1])
  {
    assert cs[..i][1..] == cs[1..][..i - 1] && cs[..i][0] == cs[0];
  }

  lemma RoomForRest(stack: seq<string>, cs: seq<string>, i: nat)
    requires 0 < i < |cs|
    ensures var f := AfterFirst(stack, cs[0]);
            RoomFor(stack, cs, i) <==> f.Underflow? || RoomFor(f.stack, cs[1..], i - 1)
  {
    FoldFirst(stack, cs, i);
    hide Fold, AfterFirst;
  }

  lemma RoomFirst(stack: seq<string>, cs: seq<string>)
    requires |cs| > 1
    ensures var f := AfterFirst(stack, cs[0]);
            Room(stack, cs) <==> RoomFor(stack, cs, 0) && (f.Underflow? || Room(f.stack, cs[1..]))
  {
    var f := AfterFirst(stack, cs[0]);
    hide RoomFor, AfterFirst;
    forall i | 0 < i < |cs|
      ensures RoomFor(stack, cs, i) <==> f.Underflow? || RoomFor(f.stack, cs[1..], i - 1)
    {
      RoomForRest(stack, cs, i);
    }
    if f.Stack? {
      assert forall j :: 0 <= j < |cs[1..]| ==> (RoomFor(f.stack, cs[1..], j) <==> RoomFor(stack, cs, j + 1));
    }
  }

  lemma RoomForFirst(stack: seq<string>, cs: seq<string>)
    requires |cs| >= 1
    ensures RoomFor(stack, cs, 0) <==> (Adds(cs, 0) ==> |Rep(stack + [cs[0]], |cs| > 1)| <= MAX_PATH)
  {
    assert cs[..0] == [];
    RepPush(stack, cs[0], |cs| > 1);
    RepLength(stack);
    hide Rep, Lengths, Render;
  }

  lemma WalkDoneAtLast(stack: seq<string>, slash: bool, c: string)
    ensures var w, f := Walk(stack, slash, [c]), Fold(stack, Trimmed([c]));
            (w.Done? <==> f.Stack? && Room(stack, [c])) && (w.Done? ==> w.stack == f.stack)
  {
    RoomForFirst(stack, [c]);
    assert Trimmed([c]) == if c == "" then [] else [c];
    assert [c][1..] == [];
    assert forall s :: Fold(s, []) == Stack(s);
    hide Rep, RoomFor;
  }

  /** The walk ends on the stack of the fold, exactly when no ".." meets the root and there is room for every
      piece. */
  lemma {:induction false} WalkDoneIff(stack: seq<string>, slash: bool, cs: seq<string>)
    requires |cs| >= 1
    ensures var w, f := Walk(stack, slash, cs), Fold(stack, Trimmed(cs));
            (w.Done? <==> f.Stack? && Room(stack, cs)) && (w.Done? ==> w.stack == f.stack)
    decreases |cs|
  {
    var c := cs[0];
    if |cs| == 1 {
      assert cs == [c];
      hide Walk, Fold, Room;
      WalkDoneAtLast(stack, slash, c);
    } else {
      FirstPiece(stack, slash, cs);
      RoomFirst(stack, cs);
      RoomForFirst(stack, cs);
      hide Walk, Fold, Room, RoomFor, Rep, Trimmed, Join;
      if c == "." {
        WalkDoneIff(stack, slash, cs[1..]);
      } else if c == ".." {
        if stack != [] { WalkDoneIff(stack[..|stack| - 1], true, cs[1..]); }
      } else {
        WalkDoneIff(stack + [c], true, cs[1..]);
      }
    }
  }

  /** For a canonical base and any relative path, of any length: simplifying succeeds exactly when the base fits,
      no ".." meets the root and there is room for every piece, and gives the text of the fold. */
  lemma SimplifySucceedsIff(stack: seq<string>, rel: string)
    requires Names(stack) && !IsAbsolute(rel)
    ensures var r, f := Simplify(Render(stack), rel), Fold(stack, Pieces(rel));
            && (r.Path? <==> TextLength(stack) <= MAX_PATH && f.Stack? && Room(stack, Split(rel)))
            && (r.Path? ==> r.path == Render(f.stack))
  {
    ParseRender(stack);
    assert IsAbsolute(Render(stack));
    RepLength(stack);
    WalkDoneIff(stack, stack == [], Split(rel));
    hide Walk, Fold, Rep, Render, Split, Room, Parse, TextLength, Trimmed;
  }

  /** With a canonical base, SimplifyPath writes beyond the limit exactly when it succeeds with components that
      fill it, or when those of the base do and a piece is to be added first. */
  lemma SpillsByLengthsIff(stack: seq<string>, rel: string)
    requires Names(stack) && !IsAbsolute(rel)
    ensures var f := Fold(stack, Pieces(rel));
            SimplifySpills(Render(stack), rel) <==>
              || (TextLength(stack) <= MAX_PATH && f.Stack? && Room(stack, Split(rel))
                  && TextLength(f.stack) >= MAX_PATH)
              || (stack != [] && TextLength(stack) == MAX_PATH && AddsFirst(Split(rel)))
  {
    SimplifySpillsIff(Render(stack), rel);
    SimplifySucceedsIff(stack, rel);
    RepLength(stack);
    var f := Fold(stack, Pieces(rel));
    if f.Stack? { RepLength(f.stack); }
    if stack != [] { LastCharNotSlash(stack); } else { assert Render(stack) == "/"; }
    assert IsAbsolute(Render(stack));
    hide Fold, Rep, Render, Split, Room, TextLength, SimplifySpills, Simplify, Names, AddsFirst, Trimmed;
  }

  function Letters(n: nat): (r: string)
    ensures |r| == n && forall i :: 0 <= i < n ==> r[i] == 'a'
  {
    seq(n, i => 'a')
  }

  lemma LettersAreName(n: nat)
    requires n > 2
    ensures Name(Letters(n)) && Names([Letters(n)]) && Split(Letters(n)) == [Letters(n)]
  {
    SplitOne(Letters(n));
  }

  /** From the root, a name of 255 characters leads to a text of 256, and its terminator lies beyond them. */
  lemma SimplifySpillsOver()
    ensures var r := Simplify("/", Letters(255)); r.Path? && |r.path| == MAX_PATH
    ensures SimplifySpills("/", Letters(255))
  {
    LettersAreName(255);
    var name := Letters(255);
    NameFromRoot(name);
    RootText();
    RepLength([name]);
    hide Simplify, SimplifySpills, Fold, Rep, Render, Split, Room, Letters;
    SimplifySucceedsIff([], name);
    SpillsByLengthsIff([], name);
  }

  lemma NameFromRoot(name: string)
    requires Name(name) && |name| == 255 && Split(name) == [name]
    ensures !IsAbsolute(name) && Pieces(name) == [name] && Fold([], [name]) == Stack([name])
    ensures TextLength([]) == 1 && TextLength([name]) == MAX_PATH && Room([], [name])
  {
    assert name[0] in name;
    LengthsPush([], name);
    assert [] + [name] == [name] && [name][1..] == [] && [name][..0] == [];
    assert Fold([name], []) == Stack([name]);
    assert RoomFor([], [name], 0);
  }

  // ---------- RelativePath ----------

  /** Length of the common beginning. */
  function Common<T(==)>(a: seq<T>, b: seq<T>): (n: nat)
    ensures n <= |a| && n <= |b| && a[..n] == b[..n]
    ensures n < |a| && n < |b| ==> a[n] != b[n]
  {
    if a != [] && b != [] && a[0] == b[0] then
      var n := Common(a[1..], b[1..]);
      assert a[..n + 1] == [a[0]] + a[1..][..n] && b[..n + 1] == [b[0]] + b[1..][..n];
      n + 1
    else 0
  }

  /** One more than the position of the last slash of s, or 0. */
  function AfterLastSlash(s: string): (p: nat)
    ensures p <= |s| && '/' !in s[p..]
    ensures p > 0 ==> s[p - 1] == '/'
  {
    if s == "" then 0
    else if s[|s| - 1] == '/' then |s|
    else
      var t := s[..|s| - 1];
      var p := AfterLastSlash(t);
      assert s[p..] == t[p..] + [s[|s| - 1]];
      p
  }

  function Slashes(s: string): nat {
    if s == "" then 0 else (if s[|s| - 1] == '/' then 1 else 0) + Slashes(s[..|s| - 1])
  }

  /** Positions in s from p on that follow a slash. */
  function Descents(s: string, p: nat): nat
    requires 1 <= p <= |s|
  {
    if p == |s| then 0 else Slashes(s[p - 1..|s| - 1])
  }

  function Ups(n: nat): (r: string)
    ensures |r| == 3 * n
  {
    if n == 0 then "" else Ups(n - 1) + "../"
  }

  /** How many directories to go up, and what remains of the destination; None when that cannot be told. */
  datatype Route = Route(ups: nat, rest: string) | NoRoute

  function RouteOf(base: string, dest: string): Route {
    var i := Common(base, dest);
    var p := AfterLastSlash(base[..i]);
    if i == |base| && (i == |dest| || dest[i] == '/') then Route(0, dest[i..])
    else if p == 0 then
      if IsAbsolute(dest) then NoRoute
      else if dest == "" then Route(0, "")
      else Route(1 + Slashes(base), dest)
    else
      Route(Descents(base, p), dest[p - 1..])
  }

  function DropSlash(s: string): string {
    if IsAbsolute(s) then s[1..] else s
  }

  /** The text of a way that goes up so many directories. */
  function WayText(ups: nat, rest: string): string {
    (if ups > 0 then Ups(ups) else "./") + rest
  }

  function RouteText(r: Route): PathResult
    requires r.Route?
  {
    var rest := DropSlash(r.rest);
    if r.ups > 0 && 3 * r.ups >= MAX_PATH then Refused(InvalidParameter)
    else if |rest| + 3 * r.ups >= MAX_PATH then Refused(InvalidParameter)
    else Path(WayText(r.ups, rest))
  }

  /** How many characters RelativePath writes, the terminator included. */
  function RelativeExtent(base: string, dest: string): (n: nat)
    ensures var r := RouteOf(base, dest); r.Route? ==> n >= if r.ups > 0 then 3 else 2
  {
    var r := RouteOf(base, dest);
    if r.NoRoute? then 0
    else
      var text := RouteText(r);
      if text.Path? then |text.path| + 1
      else if r.ups == 0 then 2
      else if 3 * r.ups < MAX_PATH then 3 * r.ups
      else MAX_PATH - 1
  }

  /** RelativePath stays within MAX_PATH characters unless the route does not go up and its rest has 254 or
      255 characters: the length test does not count the "./". */
  lemma RelativeSpillsIff(base: string, dest: string)
    ensures RelativeExtent(base, dest) > MAX_PATH <==>
              var r := RouteOf(base, dest);
              r.Route? && r.ups == 0 && MAX_PATH - 2 <= |DropSlash(r.rest)| < MAX_PATH
  {
    hide RouteOf;
  }

  /** What `VMFileSystemRelativePath` computes, for every pair of strings. */
  function Relative(base: string, dest: string): PathResult {
    var r := RouteOf(base, dest);
    if r.NoRoute? then Refused(Failure) else RouteText(r)
  }

  lemma {:induction false} SlashesPlus(s: string, t: string)
    ensures Slashes(s + t) == Slashes(s) + Slashes(t)
  {
    if t == "" {
      assert s + t == s;
    } else {
      assert (s + t)[..|s + t| - 1] == s + t[..|t| - 1];
      SlashesPlus(s, t[..|t| - 1]);
    }
  }

  lemma {:induction false} SlashesCountPieces(s: string)
    ensures |Split(s)| == Slashes(s) + 1
  {
    if s != "" {
      SlashesCountPieces(s[1..]);
      assert s == [s[0]] + s[1..];
      SlashesPlus([s[0]], s[1..]);
      assert [s[0]][..0] == "" && Slashes("") == 0;
    }
  }

  /** The number of components after which the way from base to dest turns down again: those that the two
      have in common, except that from below a destination other than the root it turns one higher. */
  function Turn(base: seq<string>, dest: seq<string>): (n: nat)
    ensures n <= |base| && n <= |dest| && base[..n] == dest[..n]
  {
    var c := Common(base, dest);
    if dest != [] && dest < base then
      assert base[..|dest| - 1] == base[..|dest|][..|dest| - 1];
      |dest| - 1
    else c
  }

  /** The text of the components of a path after the first n. */
  function After(dest: seq<string>, n: nat): string
    requires n <= |dest|
  {
    if dest[n..] == [] then "" else Join(dest[n..])
  }

  /** The route goes up from the base to the turn and down to the destination. */
  predicate RouteParts(r: Route, base: seq<string>, dest: seq<string>) {
    && r.Route?
    && r.ups == |base| - Turn(base, dest)
    && DropSlash(r.rest) == After(dest, Turn(base, dest))
  }

  /** The route between two canonical paths, exactly. */
  lemma RouteComponents(base: seq<string>, dest: seq<string>)
    requires Names(base) && Names(dest)
    ensures RouteParts(RouteOf(Render(base), Render(dest)), base, dest)
    ensures RouteOf(Render(base), Render(dest)).ups == 0 <==> base <= dest
  {
    var b := Render(base);
    var d := Render(dest);
    var i := Common(b, d);
    if base != [] && base <= dest { PrefixIsCommon(base, dest); }
    assert IsAbsolute(b) && IsAbsolute(d);
    assert i <= |b| && i <= |d| && b[..i] == d[..i];
    assert base == [] ==> b == "/" && base <= dest;
    hide Rep, Split, Join, Slashes, RouteParts, DropSlash, Descents, Common, AfterLastSlash, Names, Render;
    if i == |b| && (i == |d| || d[i] == '/') {
      PrefixRoute(base, dest);
    } else {
      var p := SharedSlash(b, d);
      BranchRoute(base, dest, p);
    }
    TurnAtBase(base, dest);
  }

  lemma TurnAtBase(base: seq<string>, dest: seq<string>)
    ensures Turn(base, dest) == |base| <==> base <= dest
  {
    if base <= dest { CommonAtLeast(base, dest, |base|); }
  }

  lemma CommonAtLeast<T>(a: seq<T>, b: seq<T>, n: nat)
    requires n <= |a| && n <= |b| && a[..n] == b[..n]
    ensures Common(a, b) >= n
  {
    var c := Common(a, b);
    assert forall k :: 0 <= k < n ==> a[k] == a[..n][k] && b[k] == b[..n][k];
  }

  /** The route goes up no further than it must exactly when the destination is not a proper beginning of
      the base, other than the root. */
  lemma GoesUpNoFurtherIff(base: seq<string>, dest: seq<string>)
    requires Names(base) && Names(dest)
    ensures (forall k :: 0 <= k <= |base| && base[..k] <= dest ==>
                           RouteOf(Render(base), Render(dest)).ups <= |base| - k)
            <==> !(dest != [] && dest < base)
  {
    RouteComponents(base, dest);
    var ups := RouteOf(Render(base), Render(dest)).ups;
    hide RouteOf, Render, Names, Join;
    if dest != [] && dest < base {
      assert base[..|dest|] <= dest && ups > |base| - |dest|;
    } else {
      forall k | 0 <= k <= |base| && base[..k] <= dest ensures ups <= |base| - k {
        CommonAtLeast(base, dest, k);
      }
    }
  }

  lemma TextsOfAB()
    ensures Names(["a", "b"]) && Names(["a"]) && Render(["a", "b"]) == "/a/b" && Render(["a"]) == "/a"
  {
    assert ["a", "b"][..1] == ["a"] && ["a"][..0] == [];
    assert Rep(["a"], true) == "/a/" && Rep(["a", "b"], false) == "/a/b";
  }

  /** From "/a/b" the way to "/a" goes up to the root and down again. */
  lemma GoesUpTooFar()
    ensures Relative("/a/b", "/a") == Path("../../a")
    ensures Names(["a", "b"]) && Names(["a"]) && Render(["a", "b"]) == "/a/b" && Render(["a"]) == "/a"
  {
    TextsOfAB();
    WayOfAB();
    hide *;
    RelativeFitsIff(["a", "b"], ["a"]);
  }

  lemma TurnOfAB()
    ensures Turn(["a", "b"], ["a"]) == 0
  {
    assert ["a", "b"][..1] == ["a"];
  }

  lemma AfterOfA()
    ensures After(["a"], 0) == "a"
  {
    assert ["a"][0..] == ["a"];
  }

  lemma TwoUps()
    ensures Ups(2) == "../../"
  {
    assert Ups(1) == Ups(0) + "../" && Ups(0) == "";
  }

  lemma WayOfAB()
    ensures Way(["a", "b"], ["a"]) == "../../a" && WayLength(["a", "b"], ["a"]) < MAX_PATH
  {
    hide Turn, After, Ups, Join, Render;
    TurnOfAB();
    AfterOfA();
    TwoUps();
  }

  lemma SharedSlash(b: string, d: string) returns (p: nat)
    requires IsAbsolute(b) && IsAbsolute(d)
    ensures p == AfterLastSlash(b[..Common(b, d)]) && 1 <= p <= |b| && p <= |d|
    ensures b[..p] == d[..p] && b[p - 1] == '/'
  {
    var c := b[..Common(b, d)];
    p := AfterLastSlash(c);
    assert c[0] == '/';
    assert forall k :: p <= k < |c| ==> c[k] in c[p..];
    assert b[..p] == c[..p] && d[..p] == d[..Common(b, d)][..p];
  }

  lemma PrefixRoute(base: seq<string>, dest: seq<string>)
    requires Names(base) && Names(dest)
    requires var b := Render(base); var d := Render(dest);
             |b| <= |d| && b == d[..|b|] && (|b| == |d| || d[|b|] == '/')
    ensures base <= dest && RouteParts(Route(0, Render(dest)[|Render(base)|..]), base, dest)
  {
    PrefixRest(base, dest);
    TurnAtBase(base, dest);
    hide Render, Join, Names;
  }

  lemma PrefixRest(base: seq<string>, dest: seq<string>)
    requires Names(base) && Names(dest)
    requires var b := Render(base); var d := Render(dest);
             |b| <= |d| && b == d[..|b|] && (|b| == |d| || d[|b|] == '/')
    ensures base <= dest && DropSlash(Render(dest)[|Render(base)|..]) == After(dest, |base|)
  {
    var b := Render(base);
    var d := Render(dest);
    if |b| == |d| {
      RenderInjective(base, dest);
    } else {
      var v := d[|b| + 1..];
      assert d == b + "/" + v;
      assert d[1..] == b[1..] + "/" + v;
      SplitAtSlash(b[1..], v);
      ParseRender(base);
      ParseRender(dest);
      assert Split(d[1..]) == Split(b[1..]) + Split(v);
      RootIsNoPrefix(base, dest, v);
      JoinSplit(v);
      assert dest[|base|..] == Split(v);
      assert DropSlash(d[|b|..]) == v;
    }
  }

  /** A canonical path never begins with two slashes. */
  lemma RootIsNoPrefix(base: seq<string>, dest: seq<string>, v: string)
    requires Names(base) && Names(dest) && Render(dest) == Render(base) + "/" + v
    ensures base != [] && dest != []
    ensures Split(Render(dest)[1..]) == dest && Split(Render(base)[1..]) == base
  {
    ParseRender(base);
    ParseRender(dest);
    var cs := Split(Render(dest)[1..]);
    assert |Render(dest)| >= 2;
    assert dest == cs && dest[0] in dest;
    assert Render(dest)[1..] == "/" + v ==> "" in cs;
  }

  /** The slash at p - 1 is the last one of the common beginning of the two texts. */
  predicate LastShared(base: seq<string>, dest: seq<string>, p: nat) {
    var b := Render(base); var d := Render(dest);
    && p == AfterLastSlash(b[..Common(b, d)])
    && 1 <= p <= |b| && p <= |d| && b[..p] == d[..p] && b[p - 1] == '/'
  }

  lemma BranchRoute(base: seq<string>, dest: seq<string>, p: nat)
    requires Names(base) && Names(dest) && LastShared(base, dest, p) && (base != [] ==> !(base <= dest))
    ensures RouteParts(Route(Descents(Render(base), p), Render(dest)[p - 1..]), base, dest)
  {
    var n := BranchParts(base, dest, p);
    if base != [] { TurnsThere(base, dest, p, n); } else { TurnAtBase(base, dest); }
    hide Render, Join, Names, Descents, LastShared, Split;
  }

  /** Both texts begin with the text of a common beginning of the lists, its slash included. */
  lemma RenderBegins(stack: seq<string>, m: nat)
    requires Names(stack) && m < |stack|
    ensures var r := Rep(stack[..m], true);
            |r| <= |Render(stack)| && Render(stack)[..|r|] == r && r[|r| - 1] == '/'
  {
    if m > 0 {
      var front := stack[..m];
      assert forall c :: c in front ==> c in stack;
      RenderPrefix(front, stack);
      RepSlash(front);
      if |Render(front)| == |Render(stack)| { RenderInjective(front, stack); }
    } else {
      assert Render(stack)[..1] == "/";
    }
  }

  lemma PiecesBefore(stack: seq<string>, p: nat, m: nat)
    requires Names(stack) && m < |stack| && |Rep(stack[..m], true)| <= p <= |Render(stack)|
    ensures |Split(Render(stack)[..p - 1])| - 1 >= m
  {
    var s, q := Render(stack), |Rep(stack[..m], true)|;
    RenderBegins(stack, m);
    SlashesCountPieces(s[..p - 1]);
    SlashesCountPieces(s[..q - 1]);
    assert s[..p - 1] == s[..q - 1] + s[q - 1..p - 1];
    SlashesPlus(s[..q - 1], s[q - 1..p - 1]);
    assert |Split(s[..q - 1])| == m + 1 by { PiecesOfFront(stack, m); }
  }

  lemma PiecesOfFront(stack: seq<string>, m: nat)
    requires Names(stack) && m < |stack|
    ensures var q := |Rep(stack[..m], true)|; q <= |Render(stack)| && |Split(Render(stack)[..q - 1])| == m + 1
  {
    var s, r := Render(stack), Rep(stack[..m], true);
    RenderBegins(stack, m);
    assert s[..|r| - 1] == r[..|r| - 1];
    if m > 0 {
      var front := stack[..m];
      assert forall c :: c in front ==> c in stack;
      RepSlash(front);
      SplitOfRender(front);
    } else {
      assert s[..0] == "" && Split("") == [""];
    }
  }

  lemma LastSlashAtLeast(s: string, q: nat)
    requires 1 <= q <= |s| && s[q - 1] == '/'
    ensures AfterLastSlash(s) >= q
  {
    var p := AfterLastSlash(s);
    assert forall k :: p <= k < |s| ==> s[p..][k - p] == s[k] && s[k] in s[p..];
  }

  /** The common components reach to the last shared slash, and not beyond. */
  lemma TurnsThere(base: seq<string>, dest: seq<string>, p: nat, n: nat)
    requires Names(base) && Names(dest) && LastShared(base, dest, p) && !(base <= dest)
    requires n == |Split(Render(base)[..p - 1])| - 1
    requires n <= |base| && n <= |dest| && base[..n] == dest[..n] && (dest != [] ==> n < |dest|)
    ensures n == Turn(base, dest)
  {
    var m := Turn(base, dest);
    CommonAtLeast(base, dest, n);
    assert m >= n;
    if dest != [] {
      TurnBelow(base, dest);
      RenderBegins(base, m);
      RenderBegins(dest, m);
      var b, d, r := Render(base), Render(dest), Rep(base[..m], true);
      var q := |r|;
      assert b[..q] == d[..q] == r;
      hide Render, Rep, Names, Name, Turn;
      CommonAtLeast(b, d, q);
      var c := b[..Common(b, d)];
      assert c[q - 1] == b[..q][q - 1];
      LastSlashAtLeast(c, q);
      PiecesBefore(base, p, m);
    }
  }

  lemma TurnBelow(base: seq<string>, dest: seq<string>)
    requires dest != [] && !(base <= dest)
    ensures Turn(base, dest) < |base| && Turn(base, dest) < |dest|
  {
    var c := Common(base, dest);
    assert c == |base| ==> base <= dest;
    assert c == |dest| ==> dest <= base;
  }

  lemma BranchParts(base: seq<string>, dest: seq<string>, p: nat) returns (n: nat)
    requires Names(base) && Names(dest) && LastShared(base, dest, p)
    ensures n <= |base| && n <= |dest| && base[..n] == dest[..n] && (dest != [] ==> n < |dest|)
    ensures n == |Split(Render(base)[..p - 1])| - 1
    ensures Descents(Render(base), p) == |base| - n
    ensures DropSlash(Render(dest)[p - 1..]) == After(dest, n)
  {
    var b := Render(base);
    var d := Render(dest);
    hide Split, Rep, Render, Join, Slashes, Names;
    var u := b[..p - 1];
    assert u == b[..p][..p - 1] == d[..p][..p - 1] == d[..p - 1];
    assert d[p - 1] == d[..p][p - 1] == b[..p][p - 1] == '/';
    n := DirectoryPieces(base, p);
    var k := DirectoryPieces(dest, p);
    assert n == k && base[..n] == dest[..n];
    assert DropSlash(d[p - 1..]) == d[p..];
    DescentsCount(base, p, n);
  }

  /** Cutting a canonical path after a slash cuts its list of components. */
  lemma DirectoryPieces(stack: seq<string>, p: nat) returns (n: nat)
    requires Names(stack) && 1 <= p <= |Render(stack)| && Render(stack)[p - 1] == '/'
    ensures n <= |stack| && n == |Split(Render(stack)[..p - 1])| - 1
    ensures stack[..n] == Split(Render(stack)[..p - 1])[1..]
    ensures Render(stack)[p..] == if stack[n..] == [] then "" else Join(stack[n..])
    ensures stack != [] ==> n < |stack| && Split(Render(stack)[p..]) == stack[n..] && Render(stack)[p..] != ""
  {
    var s := Render(stack);
    var u := s[..p - 1];
    var v := s[p..];
    n := |Split(u)| - 1;
    if stack == [] {
      assert u == "" && v == "" && Split("") == [""];
    } else {
      SplitOfRender(stack);
      assert s == u + "/" + v;
      SplitAtSlash(u, v);
      JoinSplit(v);
      LastOfSplit(v);
      hide Split, Rep, Join, Names, Name;
      CutAfterHead("", stack, Split(u), Split(v));
    }
  }

  lemma CutAfterHead<T>(e: T, a: seq<T>, x: seq<T>, y: seq<T>)
    requires [e] + a == x + y && |x| >= 1 && |y| >= 1
    ensures |x| - 1 < |a| && a[..|x| - 1] == x[1..] && a[|x| - 1..] == y && y[|y| - 1] == a[|a| - 1]
  {
    assert a == ([e] + a)[1..] == (x + y)[1..] == x[1..] + y;
  }

  lemma SplitOfRender(stack: seq<string>)
    requires Names(stack) && stack != []
    ensures Split(Render(stack)) == [""] + stack && Name(stack[|stack| - 1])
  {
    var s := Render(stack);
    ParseRender(stack);
    assert s == "" + "/" + s[1..];
    SplitAtSlash("", s[1..]);
    assert stack[|stack| - 1] in stack;
  }

  lemma LastOfSplit(v: string)
    ensures Split(v)[|Split(v)| - 1] != "" ==> v != ""
  {
  }

  lemma DescentsCount(stack: seq<string>, p: nat, n: nat)
    requires Names(stack) && 1 <= p <= |Render(stack)| && Render(stack)[p - 1] == '/'
    requires n <= |stack|
    requires stack != [] ==> n < |stack| && Split(Render(stack)[p..]) == stack[n..] && Render(stack)[p..] != ""
    ensures Descents(Render(stack), p) == |stack| - n
  {
    var s := Render(stack);
    if stack != [] {
      var v := s[p..];
      SlashesCountPieces(v);
      var w := v[..|v| - 1];
      assert s[p - 1..|s| - 1] == "/" + w;
      SlashesPlus("/", w);
      assert "/"[..0] == "" && Slashes("/") == 1;
      LastCharNotSlash(stack);
      assert v[|v| - 1] == s[|s| - 1];
      assert Slashes(v) == Slashes(w);
    }
  }

  lemma LastCharNotSlash(stack: seq<string>)
    requires Names(stack) && stack != []
    ensures Render(stack)[|Render(stack)| - 1] != '/'
  {
    var c := stack[|stack| - 1];
    assert c in stack;
    assert c[|c| - 1] in c;
  }

  /** The text of a base that begins the destination ends at a component border of the destination. */
  lemma PrefixIsCommon(base: seq<string>, dest: seq<string>)
    requires base != [] && base <= dest
    ensures var b := Render(base); var d := Render(dest);
            Common(b, d) == |b| && (|b| == |d| || d[|b|] == '/')
  {
    RenderPrefix(base, dest);
    var b := Render(base);
    var d := Render(dest);
    var i := Common(b, d);
    assert forall k :: 0 <= k < |b| ==> b[k] == d[..|b|][k];
  }

  lemma {:induction false} RenderPrefix(base: seq<string>, dest: seq<string>)
    requires base != [] && base <= dest
    ensures var b := Render(base); var d := Render(dest);
            |b| <= |d| && d[..|b|] == b && (|b| == |d| || d[|b|] == '/')
    decreases |dest|
  {
    var k := |dest| - 1;
    if |base| == |dest| {
      assert base == dest;
    } else {
      RenderPrefix(base, dest[..k]);
      RepSlash(dest[..k]);
      var b := Render(base);
      var m := Render(dest[..k]);
      var d := Render(dest);
      assert d == m + "/" + dest[k];
      assert d[..|b|] == m[..|b|];
    }
  }

  // ---------- The two calls undo one another ----------

  lemma {:induction false} SplitUps(n: nat, rest: string)
    ensures Split(Ups(n) + rest) == seq(n, i => "..") + Split(rest)
  {
    if n == 0 {
      assert Ups(0) + rest == rest;
    } else {
      var more := ".." + "/" + rest;
      assert Ups(n) + rest == Ups(n - 1) + more;
      SplitUps(n - 1, more);
      SplitAtSlash("..", rest);
      SplitOne("..");
      hide Split, Ups;
      var ups := seq(n - 1, i => "..");
      assert seq(n, i => "..") == ups + [".."];
      assert ups + ([".."] + Split(rest)) == (ups + [".."]) + Split(rest);
    }
  }

  lemma {:induction false} WalkUps(stack: seq<string>, slash: bool, n: nat, cs: seq<string>)
    requires n <= |stack| && |cs| >= 1
    ensures Walk(stack, slash, seq(n, i => "..") + cs)
         == Walk(stack[..|stack| - n], slash || n > 0, cs)
  {
    if n == 0 {
      assert seq(n, i => "..") + cs == cs && stack[..|stack|] == stack;
    } else {
      var all := seq(n, i => "..") + cs;
      assert all[1..] == seq(n - 1, i => "..") + cs;
      WalkUps(stack[..|stack| - 1], true, n - 1, cs);
      assert stack[..|stack| - 1][..|stack| - n] == stack[..|stack| - n];
    }
  }

  lemma {:induction false} RepGrows(stack: seq<string>, names: seq<string>)
    ensures |Rep(stack, true)| <= |Rep(stack + names, true)|
    ensures names != [] ==> |Rep(stack, true)| <= |Rep(stack + names, false)|
    decreases |names|
  {
    if names == [] {
      assert stack + names == stack;
    } else {
      var k := |names| - 1;
      RepGrows(stack, names[..k]);
      RepPush(stack + names[..k], names[k], false);
      RepPush(stack + names[..k], names[k], true);
      assert stack + names == (stack + names[..k]) + [names[k]];
    }
  }

  /** Adding canonical components succeeds exactly when the whole text fits. */
  lemma {:induction false} WalkNames(stack: seq<string>, slash: bool, names: seq<string>)
    requires Names(names) && names != []
    ensures Walk(stack, slash, names) ==
            if |Rep(stack + names, false)| <= MAX_PATH then Done(stack + names, false) else Stopped(InvalidParameter)
    decreases |names|
  {
    var c := names[0];
    assert c in names;
    if |names| == 1 {
      assert names == [c];
    } else {
      assert forall x :: x in names[1..] ==> x in names;
      RepGrows(stack + [c], names[1..]);
      assert stack + names == (stack + [c]) + names[1..];
      WalkNames(stack + [c], true, names[1..]);
    }
  }

  /** Walking the text that RelativePath returned first leaves the part of the base that is not common. */
  lemma WalkRelative(base: seq<string>, slash: bool, ups: nat, rest: string)
    requires ups <= |base|
    ensures var rel := WayText(ups, rest);
            && !IsAbsolute(rel)
            && Walk(base, slash, Split(rel)) == Walk(base[..|base| - ups], slash || ups > 0, Split(rest))
  {
    if ups > 0 {
      SplitUps(ups, rest);
      WalkUps(base, slash, ups, Split(rest));
      RelativeIsRelative(ups, rest);
    } else {
      assert "./" + rest == "." + "/" + rest;
      SplitAtSlash(".", rest);
      SplitOne(".");
      assert (["."] + Split(rest))[1..] == Split(rest);
      assert base[..|base|] == base;
    }
  }

  /** The length of the relative path between canonical paths, as far as the limit counts it. */
  function WayLength(base: seq<string>, dest: seq<string>): nat {
    3 * (|base| - Turn(base, dest)) + |After(dest, Turn(base, dest))|
  }

  /** The relative path between canonical paths. */
  function Way(base: seq<string>, dest: seq<string>): string {
    var n := Turn(base, dest);
    WayText(|base| - n, After(dest, n))
  }

  /** RelativePath gives a path between canonical paths exactly when the way is shorter than the limit. */
  lemma RelativeFitsIff(base: seq<string>, dest: seq<string>)
    requires Names(base) && Names(dest)
    ensures Relative(Render(base), Render(dest)) ==
            if WayLength(base, dest) < MAX_PATH then Path(Way(base, dest)) else Refused(InvalidParameter)
  {
    RouteComponents(base, dest);
    hide RouteOf, Render, Names, Turn, Ups, After, DropSlash;
  }

  /** Between canonical paths, RelativePath writes beyond the limit exactly when the base begins the destination
      and the text of the components that remain has 254 or 255 characters. */
  lemma RelativeSpillsBelowIff(base: seq<string>, dest: seq<string>)
    requires Names(base) && Names(dest)
    ensures RelativeExtent(Render(base), Render(dest)) > MAX_PATH
            <==> base <= dest && MAX_PATH - 2 <= |After(dest, |base|)| < MAX_PATH
  {
    RouteComponents(base, dest);
    RelativeSpillsIff(Render(base), Render(dest));
    TurnAtBase(base, dest);
    hide RouteOf, RelativeExtent, Render, Names, Turn, After, DropSlash;
  }

  lemma ExtentOfPath(base: string, dest: string)
    ensures Relative(base, dest).Path? ==> RelativeExtent(base, dest) == |Relative(base, dest).path| + 1
  {
    hide RouteOf, RouteText;
  }

  lemma WayFromRoot(name: string)
    requires Name(name) && |name| == 254
    ensures WayLength([], [name]) == 254 && Way([], [name]) == "./" + name && Render([name]) == "/" + name
  {
    assert Turn([], [name]) == 0 && [name][0..] == [name];
    assert After([name], 0) == name;
    RepPush([], name, false);
    assert [] + [name] == [name];
    hide Turn, After, Rep;
  }

  /** From the root to a name of 254 characters, RelativePath writes 257. */
  lemma RelativeSpillsOver()
    ensures RelativeExtent("/", "/" + Letters(254)) == 257
  {
    var name := Letters(254);
    LettersAreName(254);
    RootText();
    hide Letters, Relative, RelativeExtent, Render, Way, WayLength, Name, Split;
    WayFromRoot(name);
    RelativeFitsIff([], [name]);
    ExtentOfPath("/", "/" + name);
  }

  lemma WayWalkedAt(base: seq<string>, dest: seq<string>, ups: nat, front: seq<string>, names: seq<string>,
    rest: string)
    requires ups <= |base| && front == base[..|base| - ups] && front + names == dest && Names(names)
    requires rest == if names == [] then "" else Join(names)
    ensures !IsAbsolute(WayText(ups, rest))
    ensures Walk(base, base == [], Split(WayText(ups, rest))) ==
            if names == [] then Done(dest, base == [] || ups > 0)
            else if |Rep(dest, false)| <= MAX_PATH then Done(dest, false) else Stopped(InvalidParameter)
  {
    assert names == [] ==> front == dest;
    hide *;
    WalkRelative(base, base == [], ups, rest);
    WalkRest(front, base == [] || ups > 0, names, rest);
  }

  lemma WayParts(base: seq<string>, dest: seq<string>)
    ensures var n := Turn(base, dest);
            && Way(base, dest) == WayText(|base| - n, After(dest, n))
            && After(dest, n) == (if dest[n..] == [] then "" else Join(dest[n..]))
            && base[..n] + dest[n..] == dest
  {
    hide Turn, WayText, Join;
  }

  lemma NamesAfter(dest: seq<string>, n: nat)
    requires Names(dest) && n <= |dest|
    ensures Names(dest[n..])
  {
    assert forall c :: c in dest[n..] ==> c in dest;
  }

  /** Following the way from the base ends at the destination, unless its text is too long. */
  lemma WayWalked(base: seq<string>, dest: seq<string>)
    requires Names(dest)
    ensures !IsAbsolute(Way(base, dest))
    ensures Walk(base, base == [], Split(Way(base, dest))) ==
            if dest[Turn(base, dest)..] == [] then Done(dest, base == [] || |base| > Turn(base, dest))
            else if |Rep(dest, false)| <= MAX_PATH then Done(dest, false) else Stopped(InvalidParameter)
  {
    hide *;
    var n := Turn(base, dest);
    NamesAfter(dest, n);
    WayParts(base, dest);
    WayWalkedAt(base, dest, |base| - n, base[..n], dest[n..], After(dest, n));
  }

  lemma WayLeadsBack(base: seq<string>, dest: seq<string>)
    requires Names(base) && Names(dest)
    ensures Simplify(Render(base), Way(base, dest)) == Path(Render(dest))
            <==> |Render(base)| <= MAX_PATH && |Render(dest)| <= MAX_PATH
  {
    var n := Turn(base, dest);
    ParseRender(base);
    assert IsAbsolute(Render(base));
    if dest[n..] == [] {
      assert base[..n] == dest;
      RepShrinks(base, n);
    }
    assert Render(base) == Rep(base, false) && Render(dest) == Rep(dest, false);
    WayWalked(base, dest);
    hide Turn, Rep, Render, Way, Walk, Split, Parse, Names, IsAbsolute;
  }

  /** Simplifying the base with the path to the destination gives back the destination exactly when the way
      is shorter than the limit and base and destination are within that of SimplifyPath. */
  lemma SimplifyUndoesRelative(base: seq<string>, dest: seq<string>)
    requires Names(base) && Names(dest)
    ensures var r := Relative(Render(base), Render(dest));
            (r.Path? && Simplify(Render(base), r.path) == Path(Render(dest)))
            <==> WayLength(base, dest) < MAX_PATH && |Render(base)| <= MAX_PATH && |Render(dest)| <= MAX_PATH
  {
    RelativeFitsIff(base, dest);
    WayLeadsBack(base, dest);
    hide Relative, Render, Names, Way, Simplify, WayLength;
  }

  lemma RelativeIsRelative(n: nat, rest: string)
    requires n > 0
    ensures !IsAbsolute(Ups(n) + rest)
    decreases n
  {
    if n > 1 {
      RelativeIsRelative(n - 1, "");
      assert Ups(n - 1) + "" == Ups(n - 1);
    }
  }

  lemma WalkRest(stack: seq<string>, slash: bool, names: seq<string>, rest: string)
    requires Names(names) && rest == if names == [] then "" else Join(names)
    ensures names == [] ==> Walk(stack, slash, Split(rest)) == Done(stack, slash)
    ensures names != [] ==>
              Walk(stack, slash, Split(rest)) ==
              (if |Rep(stack + names, false)| <= MAX_PATH then Done(stack + names, false)
               else Stopped(InvalidParameter))
  {
    if names == [] {
      assert Split(rest) == [""];
    } else {
      SplitJoin(names);
      WalkNames(stack, slash, names);
    }
  }

  lemma {:induction false} RepShrinks(stack: seq<string>, n: nat)
    requires n <= |stack|
    ensures |Rep(stack[..n], false)| <= |Rep(stack, false)|
    decreases |stack|
  {
    var k := |stack| - 1;
    if n < |stack| {
      RepShrinks(stack[..k], n);
      assert stack[..k][..n] == stack[..n];
    } else {
      assert stack[..n] == stack;
    }
  }

  // ---------- GetAbsolutePath ----------

  /** What `VMFileSystemGetAbsolutePath` computes. */
  function GetAbsolute(cur: string, dest: string): PathResult {
    if IsAbsolute(dest) then Path(dest) else Simplify(cur, dest)
  }

  /** A destination reached from a directory by its relative path is the destination itself. */
  lemma GetAbsoluteUndoesRelative(base: seq<string>, dest: seq<string>)
    requires Names(base) && Names(dest)
    ensures var r := Relative(Render(base), Render(dest));
            (r.Path? && GetAbsolute(Render(base), r.path) == Path(Render(dest)))
            <==> WayLength(base, dest) < MAX_PATH && |Render(base)| <= MAX_PATH && |Render(dest)| <= MAX_PATH
  {
    SimplifyUndoesRelative(base, dest);
    RelativeFitsIff(base, dest);
    WayWalked(base, dest);
    hide Relative, Render, Names, Way, Simplify, WayLength, IsAbsolute;
  }

  // ---------- Directory and file of a full path ----------

  function DirectoryOf(p: string): PathResult {
    var end := AfterLastSlash(p);
    if end > MAX_PATH then Refused(InvalidParameter)
    else Path(if end == 0 then "" else if end == 1 then "/" else p[..end - 1])
  }

  /** How many characters a call writes that writes nothing but its result. */
  function Written(r: PathResult): nat {
    match r
    case Path(text) => |text| + 1
    case Refused(_) => 0
  }

  function FileOf(p: string): PathResult {
    var end := AfterLastSlash(p);
    if |p| - end >= MAX_PATH then Refused(InvalidParameter) else Path(p[end..])
  }

  lemma NoneIn(s: string, p: nat)
    requires p <= |s| && '/' !in s[p..]
    ensures forall i :: p <= i < |s| ==> s[i] != '/'
  {
    forall i | p <= i < |s| ensures s[i] != '/' { assert s[p..][i - p] == s[i]; }
  }

  /** There is one place after which a text has no more slashes. */
  lemma OnlyPlace(s: string, p: nat, q: nat)
    requires p <= |s| && '/' !in s[p..] && (p > 0 ==> s[p - 1] == '/')
    requires q <= |s| && '/' !in s[q..] && (q > 0 ==> s[q - 1] == '/')
    ensures p == q
  {
    NoneIn(s, p);
    NoneIn(s, q);
  }

  lemma LastSlashAt(u: string, f: string)
    requires '/' !in f
    ensures AfterLastSlash(f) == 0 && AfterLastSlash(u + "/" + f) == |u| + 1
  {
    var s := u + "/" + f;
    hide AfterLastSlash;
    assert f[0..] == f && s[|u| + 1..] == f && s[|u|] == '/';
    OnlyPlace(f, 0, AfterLastSlash(f));
    OnlyPlace(s, |u| + 1, AfterLastSlash(s));
  }

  /** A path without a slash is a file in the directory ""; one with a slash is divided at its last slash, and
      the directory before a leading slash is "/".  Each part is refused when it does not fit the limit. */
  lemma SplitParts(u: string, f: string)
    requires '/' !in f
    ensures var file := if |f| < MAX_PATH then Path(f) else Refused(InvalidParameter);
            && DirectoryOf(f) == Path("") && FileOf(f) == file
            && DirectoryOf(u + "/" + f) == (if |u| >= MAX_PATH then Refused(InvalidParameter)
                                            else Path(if u == "" then "/" else u))
            && FileOf(u + "/" + f) == file
  {
    LastSlashAt(u, f);
    var s := u + "/" + f;
    assert f[0..] == f && s[|u| + 1..] == f && s[..|u|] == u;
    hide AfterLastSlash;
  }

  function Separator(dir: string): string {
    if dir != "" && dir[|dir| - 1] == '/' then "" else "/"
  }

  function Consolidate(dir: string, file: string): PathResult {
    var text := dir + Separator(dir) + file;
    if |text| >= MAX_PATH then Refused(InvalidParameter) else Path(text)
  }

  predicate SingleLastSlash(p: string) {
    var end := AfterLastSlash(p);
    end > 0 && (end > 1 ==> p[end - 2] != '/')
  }

  lemma Rejoined(p: string)
    ensures var end := AfterLastSlash(p);
            var dir := if end == 0 then "" else if end == 1 then "/" else p[..end - 1];
            dir + Separator(dir) + p[end..] == p <==> SingleLastSlash(p)
  {
    hide AfterLastSlash;
    var end := AfterLastSlash(p);
    if end == 0 {
      assert |"" + Separator("") + p[end..]| == |p| + 1;
    } else if end == 1 {
      assert "/" + Separator("/") + p[end..] == p;
    } else {
      var dir := p[..end - 1];
      assert dir[|dir| - 1] == p[end - 2];
      assert p == dir + "/" + p[end..];
    }
  }

  /** ConsolidatePath writes the directory before it can refuse. */
  function ConsolidateExtent(dir: string, file: string): nat {
    var r := Consolidate(dir, file);
    if r.Path? then |r.path| + 1
    else if |dir| >= MAX_PATH then MAX_PATH
    else |dir + Separator(dir)|
  }

  /** The directory and the file of a path put together give the path back exactly when it has a slash,
      its last slash is not doubled, and it is shorter than the limit. */
  lemma ConsolidateUndoesSplit(p: string)
    ensures (DirectoryOf(p).Path? && FileOf(p).Path?
             && Consolidate(DirectoryOf(p).path, FileOf(p).path) == Path(p))
            <==> SingleLastSlash(p) && |p| < MAX_PATH
  {
    Rejoined(p);
    hide AfterLastSlash, SingleLastSlash, Separator;
  }
}
