/** The path calls as they run: indices move over NUL-terminated strings and characters are written into
    the caller's buffer.  Each is proved to compute the function of the same name in PathAlgebra. */
module PathCalls {
  import opened Basics
  import opened VmStatus
  import opened PathAlgebra

  /** A C string is read up to its terminator and never beyond. */
  function At(s: string, i: nat): char
    requires i <= |s|
  {
    if i < |s| then s[i] else '\0'
  }

  predicate CString(s: string) {
    '\0' !in s
  }

  /** The buffer holds the text and its terminator. */
  predicate Holds(buffer: seq<char>, text: string) {
    |text| < |buffer| && buffer[..|text|] == text && buffer[|text|] == '\0'
  }

  /** What a call that fills a buffer reports. */
  predicate Reports(r: PathResult, status: Status, buffer: seq<char>) {
    match r
    case Path(p) => status == Success && Holds(buffer, p)
    case Refused(st) => status == st
  }

  // ---------- SimplifyPath ----------

  /** Components have no slash, and a text that does not end in a slash does not end in an empty
      component. */
  predicate Shape(stack: seq<string>, slash: bool) {
    && (forall c :: c in stack ==> '/' !in c)
    && (!slash && stack != [] ==> stack[|stack| - 1] != "")
  }

  /** Removes the last component from the text of a stack; fails at the root. */
  method Pop(simpath: array<char>, length: nat, ghost stack: seq<string>, ghost slash: bool)
    returns (ok: bool, shorter: nat)
    requires length <= simpath.Length && simpath[..length] == Rep(stack, slash) && Shape(stack, slash)
    ensures ok <==> stack != []
    ensures ok ==> shorter <= length && simpath[..shorter] == Rep(stack[..|stack| - 1], true)
  {
    ok, shorter := false, length;
    if shorter == 0 { return; }
    ghost var text := simpath[..length];
    ghost var below := if stack == [] then "" else Rep(stack[..|stack| - 1], true);
    ghost var c := if stack == [] then "" else stack[|stack| - 1];
    assert stack != [] ==> text == below + c + (if slash then "/" else "") && c in stack;
    shorter := shorter - 1;
    if simpath[shorter] == '/' {
      if shorter == 0 { return; }
      shorter := shorter - 1;
    }
    assert stack != [] && |below| - 1 <= shorter == |below| + |c| - 1;
    assert text[|below| - 1] == below[|below| - 1] == '/';
    assert forall k :: |below| <= k < |below| + |c| ==> text[k] == c[k - |below|] && text[k] in c;
    while shorter > 0 && simpath[shorter] != '/'
      invariant |below| - 1 <= shorter <= |below| + |c| - 1
    {
      shorter := shorter - 1;
    }
    assert shorter == |below| - 1;
    if simpath[shorter] == '/' { shorter := shorter + 1; }
    assert simpath[..|below|] == text[..|below|] == below;
    ok := true;
  }

  /** The first piece of a text, and what follows its slash. */
  ghost predicate HeadPiece(t: string, c: string, last: bool, rest: string) {
    && '/' !in c
    && t == if last then c else c + "/" + rest
  }

  lemma SplitHead(t: string, c: string, last: bool, rest: string)
    requires HeadPiece(t, c, last, rest)
    ensures Split(t) == if last then [c] else [c] + Split(rest)
  {
    SplitOne(c);
    if !last { SplitAtSlash(c, rest); }
  }

  lemma PieceExists(t: string) returns (k: nat)
    ensures k <= |t| && HeadPiece(t, t[..k], k == |t|, if k == |t| then "" else t[k + 1..])
    ensures k < |t| ==> t[k] == '/'
  {
    k := 0;
    while k < |t| && t[k] != '/'
      invariant k <= |t| && '/' !in t[..k]
    {
      assert t[..k + 1] == t[..k] + [t[k]];
      k := k + 1;
    }
    if k < |t| { assert t == t[..k] + "/" + t[k + 1..]; }
  }

  lemma LastOfRep(stack: seq<string>, slash: bool)
    requires Shape(stack, slash)
    ensures var r := Rep(stack, slash);
            && (r[|r| - 1] == '/' <==> slash || stack == [])
            && Rep(stack, true) == r + if slash || stack == [] then "" else "/"
  {
    if stack != [] {
      var c := stack[|stack| - 1];
      assert c in stack;
      if !slash { assert c[|c| - 1] in c; }
    }
  }

  /** Closes the last component with a slash, if it has none yet. */
  method StartEntry(simpath: array<char>, length: nat, ghost stack: seq<string>, ghost slash: bool)
    returns (longer: nat)
    requires length <= simpath.Length && simpath[..length] == Rep(stack, slash) && Shape(stack, slash)
    requires |Rep(stack, true)| <= simpath.Length
    modifies simpath
    ensures longer <= length + 1 && longer <= simpath.Length && simpath[..longer] == Rep(stack, true)
  {
    longer := length;
    LastOfRep(stack, slash);
    if longer == 0 || simpath[longer - 1] != '/' {
      simpath[longer] := '/';
      longer := longer + 1;
    }
  }

  lemma Copied(buffer: seq<char>, text: string, s: string, from: nat, next: nat)
    requires from <= next <= |s| && |buffer| == |text| + (next - from)
    requires forall i :: 0 <= i < |text| ==> buffer[i] == text[i]
    requires forall i :: from <= i < next ==> buffer[|text| + i - from] == s[i]
    ensures buffer == text + s[from..next]
  {
    forall k | |text| <= k < |buffer| ensures buffer[k] == s[from..next][k - |text|] {
      assert buffer[|text| + (k - |text| + from) - from] == s[k - |text| + from];
    }
  }

  /** Copies characters up to and including the first slash, at `end`, or up to the terminator. */
  method CopyPiece(simpath: array<char>, length: nat, relpath: string, from: nat, ghost end: nat, ghost text: string)
    returns (ok: bool, longer: nat, next: nat)
    requires CString(relpath) && length <= MAX_PATH + 1 && length <= simpath.Length && MAX_PATH <= simpath.Length
    requires from < |relpath| && from <= end <= |relpath| && '/' !in relpath[from..end]
    requires end < |relpath| ==> relpath[end] == '/'
    requires simpath[..length] == text
    modifies simpath
    ensures var stop := if end < |relpath| then end + 1 else end;
            && (ok <==> length + (stop - from) <= MAX_PATH)
            && (ok ==> next == stop && longer == length + (next - from))
            && (ok ==> longer <= MAX_PATH && simpath[..longer] == text + relpath[from..stop])
    ensures simpath[..length] == text
  {
    ok, longer, next := false, length, from;
    assert forall i :: from <= i < end ==> relpath[i] in relpath[from..end];
    assert forall i :: 0 <= i < |relpath| ==> relpath[i] in relpath;
    assert |text| == length && forall i :: 0 <= i < length ==> simpath[..length][i] == text[i];
    while At(relpath, next) != '\0'
      invariant from <= next <= end
      invariant longer == length + (next - from)
      invariant next > from ==> longer <= MAX_PATH
      invariant forall i :: 0 <= i < length ==> simpath[i] == text[i]
      invariant forall i :: from <= i < next ==> simpath[length + i - from] == relpath[i]
      decreases |relpath| - next
    {
      if MAX_PATH <= longer { return; }
      simpath[longer] := relpath[next];
      longer := longer + 1;
      next := next + 1;
      if relpath[next - 1] == '/' { break; }
    }
    Copied(simpath[..longer], text, relpath, from, next);
    ok := true;
  }

  lemma SlashAtEnd(text: string, stack: seq<string>)
    requires text == Rep(stack, true)
    ensures text != "" && text[|text| - 1] == '/'
  {
  }

  /** Adds the next piece, whatever it is, with its slash if it has one. */
  method AddEntry(simpath: array<char>, length: nat, relpath: string, from: nat, ghost stack: seq<string>,
    ghost slash: bool)
    returns (ok: bool, longer: nat, next: nat, ghost c: string, ghost last: bool, ghost rest: string)
    requires CString(relpath) && from < |relpath| && length <= MAX_PATH <= simpath.Length
    requires |Rep(stack, true)| <= simpath.Length
    requires simpath[..length] == Rep(stack, slash) && Shape(stack, slash)
    modifies simpath
    ensures HeadPiece(relpath[from..], c, last, rest)
    ensures ok <==> |Rep(stack + [c], !last)| <= MAX_PATH
    ensures ok ==> from < next <= |relpath| && rest == relpath[next..] && (last ==> next == |relpath|)
    ensures ok ==> longer <= MAX_PATH && simpath[..longer] == Rep(stack + [c], !last)
    ensures Shape(stack + [c], !last)
    ensures |Rep(stack, true)| > MAX_PATH ==> !ok && simpath[MAX_PATH] == '/'
  {
    ghost var k := PieceExists(relpath[from..]);
    ghost var end := if from + k < |relpath| then from + k + 1 else from + k;
    c, last, rest := PieceAt(relpath, from, k, stack);
    longer := StartEntry(simpath, length, stack, slash);
    SlashAtEnd(simpath[..longer], stack);
    ghost var text := simpath[..longer];
    assert |text| == longer && longer <= MAX_PATH + 1;
    hide *;
    ok, longer, next := CopyPiece(simpath, longer, relpath, from, from + k, text);
    assert simpath[..|text|][|text| - 1] == '/';
  }

  /** The piece of k characters at index `from`, and the text of a stack with it. */
  lemma PieceAt(s: string, from: nat, k: nat, stack: seq<string>) returns (c: string, last: bool, rest: string)
    requires from < |s| && k <= |s| - from && (forall x :: x in stack ==> '/' !in x)
    requires var t := s[from..]; HeadPiece(t, t[..k], k == |t|, if k == |t| then "" else t[k + 1..])
    ensures var end := if from + k < |s| then from + k + 1 else from + k;
            && last == (from + k == |s|) && rest == s[end..] && '/' !in s[from..from + k]
            && Rep(stack + [c], !last) == Rep(stack, true) + s[from..end]
    ensures HeadPiece(s[from..], c, last, rest) && Shape(stack + [c], !last)
    ensures !last ==> s[from + k] == '/'
  {
    var t := s[from..];
    c, last, rest := t[..k], k == |t|, if k == |t| then "" else t[k + 1..];
    assert c == s[from..from + k];
    RepPush(stack, c, !last);
    assert !last ==> t[k] == '/' && t[..k + 1] == c + "/" && s[from..from + k + 1] == t[..k + 1];
  }

  // ---------- Reading one piece ----------

  /** What the dots at index r mean, by the tests of the source. */
  datatype Dots = UpLast | Up | HereLast | Here | Entry

  function DotsAt(s: string, r: nat): Dots
    requires r < |s| && CString(s)
  {
    if At(s, r) == '.' then
      if At(s, r + 1) == '.' then
        if At(s, r + 2) == '\0' then UpLast else if At(s, r + 2) == '/' then Up else Entry
      else if At(s, r + 1) == '\0' then HereLast
      else if At(s, r + 1) == '/' then Here
      else Entry
    else Entry
  }

  lemma DotsArePieces(s: string, r: nat)
    requires CString(s) && r < |s|
    ensures DotsAt(s, r) == UpLast ==> Split(s[r..]) == [".."]
    ensures DotsAt(s, r) == Up ==> r + 3 <= |s| && Split(s[r..]) == [".."] + Split(s[r + 3..])
    ensures DotsAt(s, r) == HereLast ==> Split(s[r..]) == ["."]
    ensures DotsAt(s, r) == Here ==> r + 2 <= |s| && Split(s[r..]) == ["."] + Split(s[r + 2..])
  {
    var t := s[r..];
    assert forall i :: 0 <= i < |s| ==> s[i] in s;
    match DotsAt(s, r) {
      case UpLast => assert t == ".."; SplitHead(t, "..", true, "");
      case Up => assert t == ".." + "/" + s[r + 3..]; SplitHead(t, "..", false, s[r + 3..]);
      case HereLast => assert t == "."; SplitHead(t, ".", true, "");
      case Here => assert t == "." + "/" + s[r + 2..]; SplitHead(t, ".", false, s[r + 2..]);
      case Entry =>
    }
  }

  lemma EntryIsNoDots(s: string, r: nat, c: string, last: bool, rest: string)
    requires CString(s) && r < |s| && DotsAt(s, r) == Entry && HeadPiece(s[r..], c, last, rest)
    ensures c != "." && c != ".." && (last ==> c != "")
  {
    var t := s[r..];
    assert forall i :: 0 <= i < |s| ==> s[i] in s;
    assert forall i :: r <= i < |s| ==> s[i] == t[i - r];
    assert last ==> t == c;
    assert !last ==> |t| > |c| && t[..|c|] == c && t[|c|] == '/';
  }

  /** One round of the walk over a piece of dots. */
  lemma WalkDots(s: string, r: nat, stack: seq<string>, slash: bool)
    requires CString(s) && r < |s|
    ensures var spills := Spills(stack, slash, Split(s[r..]));
            match DotsAt(s, r)
            case UpLast => spills == (stack != [] && |Render(stack[..|stack| - 1])| >= MAX_PATH)
            case Up => r + 3 <= |s| && spills == (stack != [] && Spills(stack[..|stack| - 1], true, Split(s[r + 3..])))
            case HereLast => spills == (|Render(stack)| >= MAX_PATH)
            case Here => r + 2 <= |s| && spills == Spills(stack, slash, Split(s[r + 2..]))
            case Entry => true
    ensures var goal := Walk(stack, slash, Split(s[r..]));
            match DotsAt(s, r)
            case UpLast => goal == if stack == [] then Stopped(Failure) else Done(stack[..|stack| - 1], true)
            case Up => r + 3 <= |s|
                       && goal == (if stack == [] then Stopped(Failure)
                                   else Walk(stack[..|stack| - 1], true, Split(s[r + 3..])))
            case HereLast => goal == Done(stack, slash)
            case Here => r + 2 <= |s| && goal == Walk(stack, slash, Split(s[r + 2..]))
            case Entry => true
  {
    DotsArePieces(s, r);
    hide Render;
    assert DotsAt(s, r) == Up ==> ([".."] + Split(s[r + 3..]))[1..] == Split(s[r + 3..]);
    assert DotsAt(s, r) == Here ==> (["."] + Split(s[r + 2..]))[1..] == Split(s[r + 2..]);
  }

  /** One round of the walk over any other piece. */
  lemma WalkEntry(s: string, r: nat, c: string, last: bool, rest: string, stack: seq<string>, slash: bool)
    requires CString(s) && r < |s| && DotsAt(s, r) == Entry && HeadPiece(s[r..], c, last, rest)
    ensures Walk(stack, slash, Split(s[r..])) ==
            if |Rep(stack + [c], !last)| > MAX_PATH then Stopped(InvalidParameter)
            else if last then Done(stack + [c], false)
            else Walk(stack + [c], true, Split(rest))
    ensures Spills(stack, slash, Split(s[r..])) ==
            if |Rep(stack, true)| > MAX_PATH then true
            else if |Rep(stack + [c], !last)| > MAX_PATH then false
            else if last then |Render(stack + [c])| >= MAX_PATH
            else Spills(stack + [c], true, Split(rest))
  {
    EntryIsNoDots(s, r, c, last, rest);
    SplitHead(s[r..], c, last, rest);
    hide Render, Rep;
    assert !last ==> ([c] + Split(rest))[1..] == Split(rest);
  }

  lemma WalkNothing(s: string, stack: seq<string>, slash: bool)
    ensures Walk(stack, slash, Split(s[|s|..])) == Done(stack, slash)
    ensures Spills(stack, slash, Split(s[|s|..])) == (|Render(stack)| >= MAX_PATH)
  {
    assert s[|s|..] == "" && Split("") == [""];
  }

  lemma ShapeOfPop(stack: seq<string>, slash: bool)
    requires Shape(stack, slash) && stack != []
    ensures Shape(stack[..|stack| - 1], true)
  {
  }

  lemma RenderFits(stack: seq<string>, slash: bool)
    requires Shape(stack, slash)
    ensures |Render(stack)| <= |Rep(stack, slash)|
    ensures stack != [] ==> |Render(stack[..|stack| - 1])| <= |Rep(stack, slash)|
  {
  }

  /** Where a piece is added, there is room for the slash before it. */
  lemma EntryFits(s: string, r: nat, stack: seq<string>, slash: bool, room: nat)
    requires CString(s) && r < |s| && DotsAt(s, r) == Entry && Shape(stack, slash)
    requires |Rep(stack, slash)| <= MAX_PATH <= room
    requires Spills(stack, slash, Split(s[r..])) ==> MAX_PATH < room
    ensures |Rep(stack, true)| <= room
  {
    var t := s[r..];
    var k := PieceExists(t);
    WalkEntry(s, r, t[..k], k == |t|, if k == |t| then "" else t[k + 1..], stack, slash);
    LastOfRep(stack, slash);
    hide Spills, Walk, Split, Rep;
  }

  method CopyBase(simpath: array<char>, abspath: string) returns (ok: bool, length: nat)
    requires CString(abspath) && simpath.Length >= MAX_PATH
    modifies simpath
    ensures ok <==> |abspath| <= MAX_PATH
    ensures ok ==> length == |abspath| && simpath[..length] == abspath
  {
    ok, length := false, 0;
    assert forall i :: 0 <= i < |abspath| ==> abspath[i] in abspath;
    while At(abspath, length) != '\0'
      invariant length <= |abspath| && length <= MAX_PATH
      invariant simpath[..length] == abspath[..length]
      decreases |abspath| - length
    {
      if MAX_PATH <= length { return; }
      simpath[length] := abspath[length];
      length := length + 1;
    }
    ok := true;
  }

  method EndText(simpath: array<char>, length: nat, ghost stack: seq<string>, ghost slash: bool)
    requires length <= simpath.Length && simpath[..length] == Rep(stack, slash) && Shape(stack, slash)
    requires |Render(stack)| < simpath.Length
    modifies simpath
    ensures Holds(simpath[..], Render(stack))
  {
    FinalText(stack, slash);
    var end := length;
    if 1 < length && simpath[length - 1] == '/' {
      end := length - 1;
    }
    assert simpath[..end] == Render(stack);
    hide Rep, Render, Shape;
    simpath[end] := '\0';
    assert simpath[..][..end] == Render(stack);
  }

  /** One round of the main loop for a piece that is not dots. */
  method AddPiece(simpath: array<char>, length: nat, relpath: string, r: nat, ghost stack: seq<string>,
    ghost slash: bool)
    returns (ok: bool, longer: nat, next: nat, ghost above: seq<string>, ghost closed: bool)
    requires CString(relpath) && r < |relpath| && DotsAt(relpath, r) == Entry && length <= MAX_PATH <= simpath.Length
    requires simpath[..length] == Rep(stack, slash) && Shape(stack, slash)
    requires Spills(stack, slash, Split(relpath[r..])) ==> MAX_PATH < simpath.Length
    modifies simpath
    ensures ok ==> r < next <= |relpath| && longer <= MAX_PATH
    ensures ok ==> simpath[..longer] == Rep(above, closed) && Shape(above, closed)
    ensures ok ==> Walk(above, closed, Split(relpath[next..])) == Walk(stack, slash, Split(relpath[r..]))
    ensures ok ==> Spills(above, closed, Split(relpath[next..])) == Spills(stack, slash, Split(relpath[r..]))
    ensures !ok ==> Walk(stack, slash, Split(relpath[r..])) == Stopped(InvalidParameter)
    ensures !ok && Spills(stack, slash, Split(relpath[r..])) ==> simpath[MAX_PATH] == '/'
  {
    hide Walk, Spills, Split, Rep, Render, DotsAt, Shape, CString, HeadPiece;
    ghost var c, last, rest;
    EntryFits(relpath, r, stack, slash, simpath.Length);
    ok, longer, next, c, last, rest := AddEntry(simpath, length, relpath, r, stack, slash);
    WalkEntry(relpath, r, c, last, rest, stack, slash);
    above, closed := stack + [c], !last;
    if last { WalkNothing(relpath, above, closed); }
  }

  /** The main loop, from the stack of the base on. */
  method FollowPieces(simpath: array<char>, from: nat, relpath: string, ghost start: seq<string>, ghost flag: bool)
    returns (status: Status, length: nat, ghost stack: seq<string>, ghost slash: bool)
    requires CString(relpath) && from <= MAX_PATH <= simpath.Length
    requires Spills(start, flag, Split(relpath)) ==> MAX_PATH < simpath.Length
    requires simpath[..from] == Rep(start, flag) && Shape(start, flag)
    modifies simpath
    ensures Walk(start, flag, Split(relpath)) == if status == Success then Done(stack, slash) else Stopped(status)
    ensures status == Success ==> length <= MAX_PATH && simpath[..length] == Rep(stack, slash) && Shape(stack, slash)
    ensures status == Success ==> |Render(stack)| < simpath.Length
    ensures Spills(start, flag, Split(relpath)) ==>
              if status == Success then |Render(stack)| == MAX_PATH else simpath[MAX_PATH] == '/'
  {
    status, length, stack, slash := Success, from, start, flag;
    ghost var goal := Walk(start, flag, Split(relpath));
    ghost var spills := Spills(start, flag, Split(relpath));
    var r: nat := 0;
    assert relpath[0..] == relpath;
    assert forall i :: 0 <= i < |relpath| ==> relpath[i] in relpath && relpath[i] != '\0';
    hide Walk, Spills, Split, Rep, Render, DotsAt, Shape, CString;
    while At(relpath, r) != '\0'
      invariant r <= |relpath| && length <= MAX_PATH
      invariant simpath[..length] == Rep(stack, slash) && Shape(stack, slash)
      invariant Walk(stack, slash, Split(relpath[r..])) == goal
      invariant Spills(stack, slash, Split(relpath[r..])) == spills
      decreases |relpath| - r
    {
      WalkDots(relpath, r, stack, slash);
      RenderFits(stack, slash);
      var dots := DotsAt(relpath, r);
      if dots == UpLast || dots == Up {
        var popped: bool, shorter: nat := Pop(simpath, length, stack, slash);
        if !popped {
          status := Failure;
          return;
        }
        ShapeOfPop(stack, slash);
        length := shorter;
        stack, slash := stack[..|stack| - 1], true;
        if dots == UpLast { return; }
        r := r + 3;
      } else if dots == HereLast {
        return;
      } else if dots == Here {
        r := r + 2;
      } else {
        var added;
        added, length, r, stack, slash := AddPiece(simpath, length, relpath, r, stack, slash);
        if !added {
          status := InvalidParameter;
          return;
        }
      }
    }
    WalkNothing(relpath, stack, slash);
    RenderFits(stack, slash);
  }

  method SimplifyPath(simpath: array<char>, abspath: string, relpath: string) returns (status: Status)
    requires CString(abspath) && CString(relpath)
    requires simpath.Length >= MAX_PATH + if SimplifySpills(abspath, relpath) then 1 else 0
    modifies simpath
    ensures Reports(Simplify(abspath, relpath), status, simpath[..])
    ensures (relpath != "" && relpath[0] == '/') || abspath == "" || abspath[0] != '/' || |abspath| > MAX_PATH ==>
              status == InvalidParameter
    ensures SimplifySpills(abspath, relpath) ==> simpath[MAX_PATH] == if status == Success then '\0' else '/'
  {
    assert |relpath| > 0 ==> relpath[0] in relpath;
    if At(relpath, 0) == '/' { return InvalidParameter; }
    if At(abspath, 0) != '/' { return InvalidParameter; }
    var ok: bool, length: nat := CopyBase(simpath, abspath);
    if !ok { return InvalidParameter; }
    ghost var (stack, slash) := Parse(abspath);
    ParseRep(abspath);
    ghost var goal := Walk(stack, slash, Split(relpath));
    assert Shape(stack, slash);
    assert Simplify(abspath, relpath) ==
           if goal.Done? then Path(Render(goal.stack)) else Refused(goal.status);
    assert Spills(stack, slash, Split(relpath)) <==> SimplifySpills(abspath, relpath);
    hide Walk, Spills, SimplifySpills, Split, Rep, Shape, Parse, Simplify, Render, CString, Holds;
    status, length, stack, slash := FollowPieces(simpath, length, relpath, stack, slash);
    if status == Success {
      EndText(simpath, length, stack, slash);
    }
  }

  /** Dropping a final slash, unless it is the root's, leaves the plain text of the stack. */
  lemma FinalText(stack: seq<string>, slash: bool)
    requires Shape(stack, slash)
    ensures var r := Rep(stack, slash);
            Render(stack) == if |r| > 1 && r[|r| - 1] == '/' then r[..|r| - 1] else r
  {
    LastOfRep(stack, slash);
    if stack != [] { RepSlash(stack); }
  }

  // ---------- RelativePath ----------

  lemma CommonIs(a: string, b: string, n: nat)
    requires n <= |a| && n <= |b| && a[..n] == b[..n]
    requires n < |a| && n < |b| ==> a[n] != b[n]
    ensures Common(a, b) == n
  {
    var c := Common(a, b);
    assert forall k :: 0 <= k < n ==> a[k] == a[..n][k] && b[k] == b[..n][k];
    assert forall k :: 0 <= k < c ==> a[k] == a[..c][k] && b[k] == b[..c][k];
  }

  lemma SlashesStep(s: string, from: nat, i: nat)
    requires from <= i < |s|
    ensures Slashes(s[from..i + 1]) == Slashes(s[from..i]) + if s[i] == '/' then 1 else 0
  {
    assert s[from..i + 1][..i - from] == s[from..i];
  }

  lemma LastSlashStep(s: string, i: nat)
    requires i < |s|
    ensures AfterLastSlash(s[..i + 1]) == if s[i] == '/' then i + 1 else AfterLastSlash(s[..i])
  {
    assert s[..i + 1][..i] == s[..i];
  }

  /** Passes over the common beginning and remembers its last slash. */
  method CommonPart(basepath: string, destpath: string) returns (index: nat, delimiter: int)
    requires CString(basepath) && CString(destpath)
    ensures index == Common(basepath, destpath)
    ensures delimiter == AfterLastSlash(basepath[..index]) - 1
  {
    index, delimiter := 0, -1;
    assert forall i :: 0 <= i < |basepath| ==> basepath[i] in basepath;
    while At(basepath, index) != '\0' && At(basepath, index) == At(destpath, index)
      invariant index <= |basepath| && index <= |destpath|
      invariant basepath[..index] == destpath[..index]
      invariant delimiter == AfterLastSlash(basepath[..index]) - 1
      decreases |basepath| - index
    {
      LastSlashStep(basepath, index);
      if basepath[index] == '/' { delimiter := index; }
      index := index + 1;
    }
    CommonIs(basepath, destpath, index);
  }

  method CountSlashes(s: string) returns (n: nat)
    requires CString(s)
    ensures n == Slashes(s)
  {
    n := 0;
    var index := 0;
    assert forall i :: 0 <= i < |s| ==> s[i] in s;
    while At(s, index) != '\0'
      invariant 0 <= index <= |s| && n == Slashes(s[0..index])
      decreases |s| - index
    {
      SlashesStep(s, 0, index);
      if s[index] == '/' { n := n + 1; }
      index := index + 1;
    }
    assert s[0..index] == s;
  }

  method CountDescents(s: string, start: nat) returns (n: nat)
    requires CString(s) && 1 <= start <= |s|
    ensures n == Descents(s, start)
  {
    n := 0;
    var index := start;
    assert forall i :: 0 <= i < |s| ==> s[i] in s;
    while At(s, index) != '\0'
      invariant start <= index <= |s| && n == Slashes(s[start - 1..index - 1])
      decreases |s| - index
    {
      SlashesStep(s, start - 1, index - 1);
      if s[index - 1] == '/' { n := n + 1; }
      index := index + 1;
    }
  }

  /** Writes "../" for each directory to leave, as long as there is room. */
  method WriteUps(relpath: array<char>, ups: nat) returns (ok: bool, written: nat)
    requires ups > 0 && relpath.Length >= if 3 * ups < MAX_PATH then 3 * ups else MAX_PATH - 1
    modifies relpath
    ensures ok <==> 3 * ups < MAX_PATH
    ensures ok ==> written == 3 * ups && relpath[..written] == Ups(ups)
    ensures relpath[0] == '.' && relpath[1] == '.' && relpath[2] == '/'
  {
    ok, written := false, 0;
    var left, length := ups, 0;
    while left > 0
      invariant left <= ups && length == written == 3 * (ups - left)
      invariant length < MAX_PATH
      invariant relpath[..written] == Ups(ups - left)
      invariant left < ups ==> relpath[0] == '.' && relpath[1] == '.' && relpath[2] == '/'
      decreases left
    {
      left := left - 1;
      length := length + 3;
      if MAX_PATH <= length { return; }
      relpath[written] := '.';
      relpath[written + 1] := '.';
      relpath[written + 2] := '/';
      assert relpath[..written + 3] == relpath[..written] + "../";
      written := written + 3;
    }
    ok := true;
  }

  method StringLength(s: string) returns (n: nat)
    requires CString(s)
    ensures n == |s|
  {
    n := 0;
    assert forall i :: 0 <= i < |s| ==> s[i] in s;
    while At(s, n) != '\0'
      invariant n <= |s|
      decreases |s| - n
    {
      n := n + 1;
    }
  }

  /** Copies a string and its terminator to position `at` of the buffer. */
  method StringCopy(dest: array<char>, at: nat, src: string)
    requires CString(src) && at + |src| < dest.Length
    modifies dest
    ensures Holds(dest[..], old(dest[..at]) + src)
  {
    var n := 0;
    assert forall i :: 0 <= i < |src| ==> src[i] in src;
    while At(src, n) != '\0'
      invariant 0 <= n <= |src|
      invariant dest[..at] == old(dest[..at]) && dest[at..at + n] == src[..n]
      decreases |src| - n
    {
      dest[at + n] := src[n];
      n := n + 1;
      assert dest[at..at + n] == src[..n];
    }
    dest[at + n] := '\0';
    assert dest[..at + n] == dest[..at] + dest[at..at + n];
  }

  /** How far up, and where the rest of the destination starts. */
  method FindRoute(basepath: string, destpath: string) returns (ok: bool, ups: nat, start: nat)
    requires CString(basepath) && CString(destpath)
    ensures ok <==> RouteOf(basepath, destpath).Route?
    ensures ok ==> start <= |destpath| && RouteOf(basepath, destpath) == Route(ups, destpath[start..])
  {
    ok, ups, start := true, 0, 0;
    assert CString(basepath) ==> forall i :: 0 <= i < |basepath| ==> basepath[i] in basepath;
    assert CString(destpath) ==> forall i :: 0 <= i < |destpath| ==> destpath[i] in destpath;
    var index, delimiter := CommonPart(basepath, destpath);
    if At(basepath, index) == '\0' && (At(destpath, index) == '/' || At(destpath, index) == '\0') {
      start := index;
    } else if delimiter == -1 {
      if At(destpath, 0) == '/' {
        ok := false;
        return;
      }
      if At(destpath, 0) != '\0' {
        var n := CountSlashes(basepath);
        ups := 1 + n;
      }
    } else {
      ups := CountDescents(basepath, delimiter + 1);
      start := delimiter;
    }
  }

  method RelativePath(relpath: array<char>, basepath: string, destpath: string) returns (status: Status)
    requires CString(basepath) && CString(destpath) && relpath.Length >= RelativeExtent(basepath, destpath)
    modifies relpath
    ensures Reports(Relative(basepath, destpath), status, relpath[..])
    ensures var r := RouteOf(basepath, destpath);
            r.Route? ==> relpath[0] == '.' && relpath[1] == (if r.ups > 0 then '.' else '/')
                         && (r.ups > 0 ==> relpath[2] == '/')
  {
    var found, ups, start := FindRoute(basepath, destpath);
    if !found { return Failure; }
    var length, written := 0, 0;
    if ups > 0 {
      var ok: bool;
      ok, written := WriteUps(relpath, ups);
      if !ok { return InvalidParameter; }
      length := written;
    } else {
      relpath[0] := '.';
      relpath[1] := '/';
      written := 2;
      assert relpath[..2] == "./";
    }
    ghost var prefix := if ups > 0 then Ups(ups) else "./";
    assert relpath[..written] == prefix;
    var rest := destpath[start..];
    if At(rest, 0) == '/' { rest := rest[1..]; }
    assert CString(rest) && rest == DropSlash(destpath[start..]);
    hide Ups, RouteOf, Holds, DropSlash;
    var n := StringLength(rest);
    if MAX_PATH <= n + length { return InvalidParameter; }
    ghost var begin := relpath[..written];
    StringCopy(relpath, written, rest);
    BeginKept(relpath[..], prefix, rest);
    return Success;
  }

  lemma BeginKept(buffer: seq<char>, prefix: string, rest: string)
    requires Holds(buffer, prefix + rest)
    ensures forall i :: 0 <= i < |prefix| ==> buffer[i] == prefix[i]
  {
    assert forall i :: 0 <= i < |prefix| ==> buffer[..|prefix + rest|][i] == (prefix + rest)[i];
  }

  // ---------- PathIsOnMount and GetAbsolutePath ----------

  /** Success and Failure tell whether the way from the mount point to the destination goes up, even when
      RelativePath refused its text; without a way the outcome is left open, as the buffer is not set.  On
      canonical absolute paths the call succeeds exactly when the components of the mount point begin
      those of the destination. */
  method PathIsOnMount(mntpt: Option<string>, destpath: string) returns (status: Status)
    requires CString(destpath) && (mntpt.Some? ==> CString(mntpt.value))
    requires mntpt.Some? ==> RelativeExtent(mntpt.value, destpath) <= MAX_PATH
    ensures status == Success || status == Failure
    ensures mntpt.None? ==> status == Success
    ensures mntpt.Some? && RouteOf(mntpt.value, destpath).Route? ==>
              (status == Failure <==> RouteOf(mntpt.value, destpath).ups > 0)
    ensures forall mount, dest ::
              Names(mount) && Names(dest) && mntpt == Some(Render(mount)) && destpath == Render(dest)
              ==> (status == Success <==> mount <= dest)
  {
    forall mount, dest | Names(mount) && Names(dest) && mntpt == Some(Render(mount)) && destpath == Render(dest)
      ensures RouteOf(mntpt.value, destpath).Route?
      ensures RouteOf(mntpt.value, destpath).ups == 0 <==> mount <= dest
    {
      RouteComponents(mount, dest);
    }
    if mntpt.Some? {
      var relpath := new char[MAX_PATH];
      var ignored := RelativePath(relpath, mntpt.value, destpath);
      if relpath[0] == '.' && relpath[1] == '.' && (relpath[2] == '/' || relpath[2] == '\0') {
        return Failure;
      }
    }
    return Success;
  }

  method GetAbsolutePath(abspath: array<char>, curpath: string, destpath: string) returns (status: Status)
    requires CString(curpath) && CString(destpath)
    requires abspath.Length >= if IsAbsolute(destpath) then |destpath| + 1
                               else MAX_PATH + if SimplifySpills(curpath, destpath) then 1 else 0
    modifies abspath
    ensures Reports(GetAbsolute(curpath, destpath), status, abspath[..])
    ensures destpath != "" && destpath[0] == '/' ==> status == Success && Holds(abspath[..], destpath)
  {
    if At(destpath, 0) == '/' {
      StringCopy(abspath, 0, destpath);
      assert [] + destpath == destpath;
      return Success;
    }
    status := SimplifyPath(abspath, curpath, destpath);
  }

  // ---------- Directory and file of a full path ----------

  method LastDelimiter(path: string) returns (index: nat, delimiter: int)
    requires CString(path)
    ensures index == |path| && delimiter == AfterLastSlash(path) - 1
  {
    index, delimiter := 0, -1;
    assert forall i :: 0 <= i < |path| ==> path[i] in path;
    while At(path, index) != '\0'
      invariant index <= |path| && delimiter == AfterLastSlash(path[..index]) - 1
      decreases |path| - index
    {
      LastSlashStep(path, index);
      if path[index] == '/' { delimiter := index; }
      index := index + 1;
    }
    assert path[..index] == path;
  }

  method DirectoryFromFullPath(dirname: array<char>, path: string) returns (status: Status)
    requires CString(path) && dirname.Length >= Written(DirectoryOf(path))
    modifies dirname
    ensures Reports(DirectoryOf(path), status, dirname[..])
  {
    var length, delimiter := LastDelimiter(path);
    if MAX_PATH <= delimiter { return InvalidParameter; }
    if delimiter == -1 {
      dirname[0] := '\0';
    } else if delimiter > 0 {
      var index := 0;
      while index < delimiter
        invariant 0 <= index <= delimiter && dirname[..index] == path[..index]
      {
        dirname[index] := path[index];
        index := index + 1;
      }
      dirname[index] := '\0';
    } else {
      dirname[0] := '/';
      dirname[1] := '\0';
    }
    return Success;
  }

  method FileFromFullPath(filename: array<char>, path: string) returns (status: Status)
    requires CString(path) && filename.Length >= Written(FileOf(path))
    modifies filename
    ensures Reports(FileOf(path), status, filename[..])
  {
    var length, delimiter := LastDelimiter(path);
    if delimiter == -1 {
      if MAX_PATH <= length { return InvalidParameter; }
      StringCopy(filename, 0, path);
      assert [] + path == path;
    } else {
      if MAX_PATH <= length - delimiter - 1 { return InvalidParameter; }
      StringCopy(filename, 0, path[delimiter + 1..]);
      assert [] + path[delimiter + 1..] == path[delimiter + 1..];
    }
    return Success;
  }

  method ConsolidatePath(fullpath: array<char>, dirname: string, filename: string) returns (status: Status)
    requires CString(dirname) && CString(filename) && fullpath.Length >= ConsolidateExtent(dirname, filename)
    modifies fullpath
    ensures Reports(Consolidate(dirname, filename), status, fullpath[..])
  {
    var index, delimiterWasLast := 0, false;
    assert forall i :: 0 <= i < |dirname| ==> dirname[i] in dirname;
    while At(dirname, index) != '\0'
      invariant 0 <= index <= |dirname| && index < MAX_PATH
      invariant fullpath[..index] == dirname[..index]
      invariant delimiterWasLast == (index > 0 && dirname[index - 1] == '/')
      decreases |dirname| - index
    {
      delimiterWasLast := dirname[index] == '/';
      fullpath[index] := dirname[index];
      if MAX_PATH - 1 == index { return InvalidParameter; }
      index := index + 1;
    }
    if !delimiterWasLast {
      fullpath[index] := '/';
      index := index + 1;
    }
    assert fullpath[..index] == dirname + Separator(dirname);
    var n := StringLength(filename);
    if MAX_PATH <= n + index { return InvalidParameter; }
    StringCopy(fullpath, index, filename);
    return Success;
  }
}
