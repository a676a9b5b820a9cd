/**
 * Lexical path handling from Go's standard library, on the `/` separator:
 * strings.Split and strings.Join on "/", path/filepath's Clean, Join and Dir.
 *
 * Clean is modelled by the four rules its documentation gives, applied to
 * the path's elements in order: drop empty and `.` elements, let `..` cancel
 * the nearest preceding element that is not `..`, drop `..` directly after
 * the root, and print the empty result as `.` (or `/` when rooted).
 */
module GoFilepath {

  // ---------------------------------------------------------------------------
  // strings.Split(s, "/") and strings.Join(xs, "/")

  /** strings.IndexByte(s, '/'): the first separator's index, or -1. */
  function IndexSlash(s: string): (i: int)
    ensures -1 <= i < |s|
    ensures i >= 0 ==> s[i] == '/' && '/' !in s[..i]
    ensures i == -1 <==> '/' !in s
    decreases |s|
  {
    if |s| == 0 then -1
    else if s[0] == '/' then 0
    else
      var j := IndexSlash(s[1..]);
      if j < 0 then -1
      else
        assert s[..j + 1] == [s[0]] + s[1..][..j];
        j + 1
  }

  /** strings.Split(s, "/"): the pieces between separators, at least one. */
  function Split(s: string): (r: seq<string>)
    ensures |r| >= 1
    decreases |s|
  {
    var i := IndexSlash(s);
    if i < 0 then [s]
    else [s[..i]] + Split(s[i + 1..])
  }

  /** strings.Join(xs, "/"). */
  function JoinSlash(xs: seq<string>): (r: string)
    decreases |xs|
  {
    if |xs| == 0 then ""
    else if |xs| == 1 then xs[0]
    else xs[0] + "/" + JoinSlash(xs[1..])
  }

  /** Whether no element holds a separator. */
  predicate NoSlash(xs: seq<string>) {
    forall i :: 0 <= i < |xs| ==> '/' !in xs[i]
  }

  /** No piece of a split holds a separator. */
  lemma {:induction false} SplitNoSlash(s: string)
    ensures NoSlash(Split(s))
    decreases |s|
  {
    var i := IndexSlash(s);
    if i >= 0 {
      SplitNoSlash(s[i + 1..]);
      assert Split(s)[1..] == Split(s[i + 1..]);
    }
  }

  /** Joining the pieces of a split gives the string back. */
  lemma {:induction false} JoinSlashSplit(s: string)
    ensures JoinSlash(Split(s)) == s
    decreases |s|
  {
    var i := IndexSlash(s);
    if i >= 0 {
      var rest := s[i + 1..];
      JoinSlashSplit(rest);
      SplitAtSlash(s, i);
      JoinSlashCons(s[..i], Split(rest));
    }
  }

  /** A split at the first separator: the piece before it, then the split of the rest. */
  lemma SplitAtSlash(s: string, i: int)
    requires i == IndexSlash(s) && i >= 0
    ensures Split(s) == [s[..i]] + Split(s[i + 1..])
    ensures s == s[..i] + "/" + s[i + 1..]
  {
    SliceAround(s, i);
  }

  lemma SliceAround(s: string, i: int)
    requires 0 <= i < |s| && s[i] == '/'
    ensures s == s[..i] + "/" + s[i + 1..]
  {
    assert s == s[..i] + [s[i]] + s[i + 1..];
  }

  lemma JoinSlashCons(head: string, tail: seq<string>)
    requires |tail| >= 1
    ensures JoinSlash([head] + tail) == head + "/" + JoinSlash(tail)
  {
    assert ([head] + tail)[1..] == tail;
  }

  /** A piece without a separator followed by `/` splits off as one element. */
  lemma SplitAfter(a: string, b: string)
    requires '/' !in a
    ensures Split(a + "/" + b) == [a] + Split(b)
  {
    var s := a + "/" + b;
    IndexSlashAfter(a, b);
    assert s[..|a|] == a;
    assert s[|a| + 1..] == b;
  }

  lemma {:induction false} IndexSlashAfter(a: string, b: string)
    requires '/' !in a
    ensures IndexSlash(a + "/" + b) == |a|
    decreases |a|
  {
    var s := a + "/" + b;
    if |a| > 0 {
      assert s[0] == a[0];
      assert s[1..] == a[1..] + "/" + b;
      IndexSlashAfter(a[1..], b);
    }
  }

  /** Splitting a join of separator-free pieces gives the pieces back. */
  lemma {:induction false} SplitJoinSlash(xs: seq<string>)
    requires |xs| >= 1 && NoSlash(xs)
    ensures Split(JoinSlash(xs)) == xs
    decreases |xs|
  {
    if |xs| > 1 {
      assert '/' !in xs[0];
      SplitAfter(xs[0], JoinSlash(xs[1..]));
      SplitJoinSlash(xs[1..]);
      assert xs == [xs[0]] + xs[1..];
    }
  }

  // ---------------------------------------------------------------------------
  // Clean

  /** One element of a path applied to the stack of kept elements. */
  function CleanStep(stack: seq<string>, e: string, rooted: bool): (r: seq<string>)
  {
    if e == "" || e == "." then stack
    else if e == ".." then
      if |stack| > 0 && stack[|stack| - 1] != ".." then stack[..|stack| - 1]
      else if rooted then stack
      else stack + [".."]
    else stack + [e]
  }

  /** The elements of a path applied in order to a stack of kept elements. */
  function Resolve(stack: seq<string>, elems: seq<string>, rooted: bool): (r: seq<string>)
    decreases |elems|
  {
    if |elems| == 0 then stack
    else Resolve(CleanStep(stack, elems[0], rooted), elems[1..], rooted)
  }

  /**
   * The elements of a clean path: none empty, none `.`, none holding a
   * separator, every `..` before every other element, and no `..` at all
   * after the root.
   */
  predicate Canonical(st: seq<string>, rooted: bool) {
    (forall i :: 0 <= i < |st| ==> st[i] != "" && st[i] != "." && '/' !in st[i])
    && (forall i, j :: 0 <= i < j < |st| && st[j] == ".." ==> st[i] == "..")
    && (rooted ==> forall i :: 0 <= i < |st| ==> st[i] != "..")
  }

  /** filepath.Clean: the shortest lexically equivalent path. */
  function Clean(path: string): (r: string)
    ensures r != ""
  {
    if path == "" then "."
    else
      var rooted := path[0] == '/';
      var body := JoinSlash(Resolve([], Split(path), rooted));
      if rooted then "/" + body
      else if body == "" then "."
      else body
  }

  lemma StepKeepsCanonical(stack: seq<string>, e: string, rooted: bool)
    requires Canonical(stack, rooted) && '/' !in e
    ensures Canonical(CleanStep(stack, e, rooted), rooted)
  {
    if e == ".." && !(|stack| > 0 && stack[|stack| - 1] != "..") && !rooted {
      var r := stack + [".."];
      forall i, j | 0 <= i < j < |r| && r[j] == ".."
        ensures r[i] == ".."
      {
        if j < |stack| {
        } else {
          assert stack[|stack| - 1] == "..";
          assert i <= |stack| - 1;
        }
      }
    }
  }

  /** Resolving separator-free elements onto a clean stack gives a clean stack. */
  lemma {:induction false} ResolveKeepsCanonical(stack: seq<string>, elems: seq<string>, rooted: bool)
    requires Canonical(stack, rooted) && NoSlash(elems)
    ensures Canonical(Resolve(stack, elems, rooted), rooted)
    decreases |elems|
  {
    if |elems| > 0 {
      StepKeepsCanonical(stack, elems[0], rooted);
      ResolveKeepsCanonical(CleanStep(stack, elems[0], rooted), elems[1..], rooted);
    }
  }

  /** Resolving the elements of a clean path keeps every one of them. */
  lemma {:induction false} ResolveCanonical(stack: seq<string>, st: seq<string>, rooted: bool)
    requires Canonical(stack + st, rooted)
    ensures Resolve(stack, st, rooted) == stack + st
    decreases |st|
  {
    if |st| > 0 {
      var all := stack + st;
      assert all[|stack|] == st[0];
      if st[0] == ".." && |stack| > 0 {
        assert all[|stack| - 1] == "..";
      }
      assert CleanStep(stack, st[0], rooted) == stack + [st[0]];
      assert (stack + [st[0]]) + st[1..] == all;
      ResolveCanonical(stack + [st[0]], st[1..], rooted);
    }
  }

  /** The first character of a join of non-empty pieces is that of the first piece. */
  lemma JoinSlashHead(xs: seq<string>)
    requires |xs| >= 1 && |xs[0]| > 0
    ensures |JoinSlash(xs)| > 0 && JoinSlash(xs)[0] == xs[0][0]
  {
  }

  /** The pieces of a clean stack, split at the separators, are the stack itself. */
  lemma SplitCanonical(st: seq<string>, rooted: bool)
    requires Canonical(st, rooted) && |st| >= 1
    ensures Split(JoinSlash(st)) == st
  {
    SplitJoinSlash(st);
  }

  /** Clean's output is already clean. */
  lemma CleanIdempotent(path: string)
    ensures Clean(Clean(path)) == Clean(path)
  {
    var r := Clean(path);
    if path != "" {
      var rooted := path[0] == '/';
      var st := Resolve([], Split(path), rooted);
      SplitNoSlash(path);
      ResolveKeepsCanonical([], Split(path), rooted);
      if |st| == 0 {
        if rooted {
          assert r == "/" + "";
          CleanOfSlash();
        } else {
          CleanOfDot();
        }
      } else if rooted {
        CleanRootedCanonical(st);
      } else {
        CleanRelativeCanonical(st);
      }
    } else {
      CleanOfDot();
    }
  }

  /** A rooted path printed from a canonical stack is clean. */
  lemma CleanRootedCanonical(st: seq<string>)
    requires Canonical(st, true) && |st| >= 1
    ensures Clean("/" + JoinSlash(st)) == "/" + JoinSlash(st)
  {
    var r := "/" + JoinSlash(st);
    SplitCanonical(st, true);
    SplitAfter("", JoinSlash(st));
    assert "" + "/" + JoinSlash(st) == r;
    assert Split(r) == [""] + st;
    assert CleanStep([], "", true) == [];
    assert [] + st == st;
    ResolveCanonical([], st, true);
  }

  /** A relative path printed from a non-empty canonical stack is clean. */
  lemma CleanRelativeCanonical(st: seq<string>)
    requires Canonical(st, false) && |st| >= 1
    ensures JoinSlash(st) != "" && Clean(JoinSlash(st)) == JoinSlash(st)
  {
    SplitCanonical(st, false);
    JoinSlashHead(st);
    assert [] + st == st;
    ResolveCanonical([], st, false);
  }


  lemma CleanOfDot()
    ensures Clean(".") == "."
  {
    assert Split(".") == ["."];
  }

  lemma CleanOfSlash()
    ensures Clean("/") == "/"
  {
    SplitAfter("", "");
    assert "" + "/" + "" == "/";
    assert Split("") == [""];
  }

  /** Clean keeps a path rooted exactly when it was rooted. */
  lemma CleanKeepsRoot(path: string)
    ensures Clean(path)[0] == '/' <==> |path| > 0 && path[0] == '/'
  {
    if path != "" && path[0] != '/' {
      var st := Resolve([], Split(path), false);
      SplitNoSlash(path);
      ResolveKeepsCanonical([], Split(path), false);
      if |st| > 0 {
        JoinSlashHead(st);
        assert st[0][0] != '/' by {
          assert '/' !in st[0];
        }
      }
    }
  }

  /**
   * Clean of a path given by its separator-free pieces: rooted when the first
   * piece is empty, and the resolved pieces joined again.
   */
  lemma CleanOfPieces(xs: seq<string>)
    requires |xs| >= 1 && NoSlash(xs) && JoinSlash(xs) != ""
    ensures var rooted := xs[0] == "";
            var body := JoinSlash(Resolve([], xs, rooted));
            Clean(JoinSlash(xs)) == if rooted then "/" + body else if body == "" then "." else body
  {
    SplitJoinSlash(xs);
    if xs[0] == "" {
      assert |xs| > 1;
      JoinSlashCons(xs[0], xs[1..]);
      assert xs == [xs[0]] + xs[1..];
    } else {
      JoinSlashHead(xs);
      assert '/' !in xs[0];
    }
  }

  /** A path element that names something: not empty, not `.` or `..`, no separator. */
  predicate IsName(n: string) {
    n != "" && n != "." && n != ".." && '/' !in n
  }

  /** Pieces of a path that Clean only has to drop or keep: empty, `.`, or names. */
  predicate Plain(p: seq<string>) {
    forall i :: 0 <= i < |p| ==> p[i] == "" || p[i] == "." || IsName(p[i])
  }

  /** The names among plain pieces, in order. */
  function Keep(p: seq<string>): (r: seq<string>)
    ensures |r| <= |p|
    decreases |p|
  {
    if |p| == 0 then []
    else if p[0] == "" || p[0] == "." then Keep(p[1..])
    else [p[0]] + Keep(p[1..])
  }

  lemma {:induction false} KeepAppend(a: seq<string>, b: seq<string>)
    ensures Keep(a + b) == Keep(a) + Keep(b)
    decreases |a|
  {
    if |a| == 0 {
      assert a + b == b;
    } else {
      assert (a + b)[0] == a[0];
      assert (a + b)[1..] == a[1..] + b;
      KeepAppend(a[1..], b);
    }
  }

  lemma {:induction false} KeepNames(p: seq<string>)
    requires Plain(p)
    ensures forall i :: 0 <= i < |Keep(p)| ==> IsName(Keep(p)[i])
    decreases |p|
  {
    if |p| > 0 {
      KeepNames(p[1..]);
    }
  }

  /** Resolving plain pieces onto names keeps exactly their names. */
  lemma {:induction false} ResolvePlain(stack: seq<string>, p: seq<string>, rooted: bool)
    requires Plain(p)
    ensures Resolve(stack, p, rooted) == stack + Keep(p)
    decreases |p|
  {
    if |p| > 0 {
      ResolvePlain(CleanStep(stack, p[0], rooted), p[1..], rooted);
      if p[0] != "" && p[0] != "." {
        assert CleanStep(stack, p[0], rooted) == stack + [p[0]];
        assert (stack + [p[0]]) + Keep(p[1..]) == stack + ([p[0]] + Keep(p[1..]));
      }
    }
  }

  /** Joining two non-empty lists of pieces puts one separator between them. */
  lemma {:induction false} JoinSlashAppend(xs: seq<string>, ys: seq<string>)
    requires |xs| >= 1 && |ys| >= 1
    ensures JoinSlash(xs + ys) == JoinSlash(xs) + "/" + JoinSlash(ys)
    decreases |xs|
  {
    if |xs| == 1 {
      JoinSlashCons(xs[0], ys);
      assert xs + ys == [xs[0]] + ys;
    } else {
      JoinSlashAppend(xs[1..], ys);
      assert (xs + ys)[1..] == xs[1..] + ys;
      JoinSlashCons(xs[0], xs[1..] + ys);
      assert xs + ys == [xs[0]] + (xs[1..] + ys);
      JoinSlashCons(xs[0], xs[1..]);
      assert xs == [xs[0]] + xs[1..];
    }
  }

  /** A join of names is empty only when there are none. */
  lemma JoinSlashNamesEmpty(xs: seq<string>)
    requires forall i :: 0 <= i < |xs| ==> IsName(xs[i])
    ensures JoinSlash(xs) == "" <==> |xs| == 0
  {
    if |xs| > 0 {
      JoinSlashHead(xs);
    }
  }

  /** How a path is printed from its rootedness and its kept names. */
  function Render(rooted: bool, names: seq<string>): (r: string)
  {
    if rooted then "/" + JoinSlash(names)
    else if |names| == 0 then "."
    else JoinSlash(names)
  }

  /**
   * Clean of a path made of plain pieces: the empty and `.` pieces go, the
   * names stay in order, and the path stays rooted exactly when it was.
   */
  lemma CleanPlain(p: seq<string>)
    requires |p| >= 1 && Plain(p) && JoinSlash(p) != ""
    ensures Clean(JoinSlash(p)) == Render(p[0] == "", Keep(p))
  {
    assert NoSlash(p);
    CleanOfPieces(p);
    ResolvePlain([], p, p[0] == "");
    assert [] + Keep(p) == Keep(p);
    KeepNames(p);
    JoinSlashNamesEmpty(Keep(p));
  }

  // ---------------------------------------------------------------------------
  // Join and Dir

  /**
   * filepath.Join: from the first non-empty element on, the elements joined
   * with `/` and cleaned; the empty string when every element is empty.
   */
  function Join(elems: seq<string>): (r: string)
    ensures r == "" <==> forall i :: 0 <= i < |elems| ==> elems[i] == ""
    decreases |elems|
  {
    if |elems| == 0 then ""
    else if elems[0] != "" then Clean(JoinSlash(elems))
    else Join(elems[1..])
  }

  /** A non-empty Join is a clean path. */
  lemma {:induction false} JoinIsClean(elems: seq<string>)
    requires Join(elems) != ""
    ensures Clean(Join(elems)) == Join(elems)
    decreases |elems|
  {
    if elems[0] != "" {
      CleanIdempotent(JoinSlash(elems));
    } else {
      JoinIsClean(elems[1..]);
    }
  }

  /** Index of the last separator in s, or -1 when there is none. */
  function LastSlash(s: string): (i: int)
    ensures -1 <= i < |s|
    ensures i >= 0 ==> s[i] == '/'
    ensures forall k :: i < k < |s| ==> s[k] != '/'
    ensures i == -1 <==> '/' !in s
    decreases |s|
  {
    if |s| == 0 then -1
    else if s[|s| - 1] == '/' then |s| - 1
    else LastSlash(s[..|s| - 1])
  }

  /** filepath.Dir: everything up to the last separator, cleaned. */
  function Dir(path: string): (r: string)
    ensures r != ""
  {
    Clean(path[..LastSlash(path) + 1])
  }

  /** Dir's result is clean, and a path without separator lies in `.`. */
  lemma DirProperties(path: string)
    ensures Clean(Dir(path)) == Dir(path)
    ensures '/' !in path ==> Dir(path) == "."
  {
    CleanIdempotent(path[..LastSlash(path) + 1]);
  }
}
