/**
 * The parts of Go's `strings` package that the postprocessing, whitelist and
 * path code depend on. A Go string is modelled as `seq<char>` with one `char`
 * per rune; only ASCII case folding is modelled.
 *
 * Besides the functions themselves, this module holds the small algebra of
 * `ReplaceAll` that the sequential rewriters in `Workarounds` are proved with:
 * when a pass copies a chunk verbatim, and when a prefix of a pass's output
 * must already have been a prefix of its input.
 */
module GoStrings {

  /** strings.HasPrefix (Dafny's `<=` on sequences is the prefix relation) */
  predicate HasPrefix(s: string, prefix: string) {
    prefix <= s
  }

  /** strings.HasSuffix */
  predicate HasSuffix(s: string, suffix: string) {
    |suffix| <= |s| && s[|s| - |suffix|..] == suffix
  }

  /** strings.TrimPrefix: removes one leading `prefix` if there is one, otherwise returns `s` unchanged */
  function TrimPrefix(s: string, prefix: string): (r: string)
    ensures HasPrefix(s, prefix) ==> prefix + r == s
    ensures !HasPrefix(s, prefix) ==> r == s
  {
    if prefix <= s then s[|prefix|..] else s
  }

  /** unicode.ToLower restricted to ASCII: 'A'..'Z' map to 'a'..'z', everything else is kept */
  function LowerChar(c: char): char {
    if 'A' <= c <= 'Z' then (c as int + 32) as char else c
  }

  /** strings.ToLower, ASCII letters only */
  function ToLower(s: string): (r: string)
    ensures |r| == |s|
    ensures forall i :: 0 <= i < |s| ==> r[i] == LowerChar(s[i])
  {
    seq(|s|, i requires 0 <= i < |s| => LowerChar(s[i]))
  }

  lemma LowerCharIdempotent(c: char)
    ensures LowerChar(LowerChar(c)) == LowerChar(c)
  {
  }

  /** An occurrence of `pat` starts at position `i` of `s`. */
  predicate MatchAt(s: string, pat: string, i: int) {
    0 <= i <= |s| && pat <= s[i..]
  }

  /** strings.Contains: some position of `s` starts an occurrence of `sub` */
  predicate Contains(s: string, sub: string)
    decreases |s|
  {
    sub <= s || (|s| > 0 && Contains(s[1..], sub))
  }

  /** `Contains` agrees with the positional reading "some suffix of `s` starts with `sub`". */
  lemma {:induction false} ContainsAt(s: string, sub: string)
    ensures Contains(s, sub) <==> exists i :: MatchAt(s, sub, i)
    decreases |s|
  {
    assert s[0..] == s;
    assert MatchAt(s, sub, 0) == (sub <= s);
    if |s| > 0 {
      ContainsAt(s[1..], sub);
      if Contains(s, sub) && !(sub <= s) {
        var i :| MatchAt(s[1..], sub, i);
        assert s[1..][i..] == s[i + 1..];
        assert MatchAt(s, sub, i + 1);
      }
      if sub <= s {
        assert MatchAt(s, sub, 0);
      }
      if exists i :: MatchAt(s, sub, i) {
        var i :| MatchAt(s, sub, i);
        if i > 0 {
          assert s[1..][i - 1..] == s[i..];
          assert MatchAt(s[1..], sub, i - 1);
        }
      }
    }
  }

  /**
   * strings.Index: the position of the leftmost occurrence of `sub` in `s`, or -1
   * when there is none.
   */
  function Index(s: string, sub: string): (r: int)
    ensures -1 <= r <= |s|
    ensures r >= 0 ==> MatchAt(s, sub, r)
    ensures r >= 0 ==> forall i :: 0 <= i < r ==> !MatchAt(s, sub, i)
    ensures r < 0 ==> forall i :: !MatchAt(s, sub, i)
    decreases |s|
  {
    if sub <= s then 0
    else if |s| == 0 then -1
    else
      var k := Index(s[1..], sub);
      assert forall i :: 1 <= i <= |s| ==> MatchAt(s, sub, i) == MatchAt(s[1..], sub, i - 1) by {
        forall i | 1 <= i <= |s| ensures MatchAt(s, sub, i) == MatchAt(s[1..], sub, i - 1) {
          assert s[i..] == s[1..][i - 1..];
        }
      }
      assert s[0..] == s;
      if k < 0 then -1 else k + 1
  }

  /** A `sub` found in a suffix of `s` is found in `s`. */
  lemma {:induction false} ContainsDrop(s: string, sub: string, k: nat)
    requires k <= |s|
    ensures Contains(s[k..], sub) ==> Contains(s, sub)
    decreases k
  {
    if k > 0 {
      assert s[1..][k - 1..] == s[k..];
      ContainsDrop(s[1..], sub, k - 1);
    }
  }

  /** strings.Count for a non-empty pattern: the number of non-overlapping occurrences, found left to right. */
  function Count(s: string, pat: string): nat
    requires 0 < |pat|
    decreases |s|
  {
    if |s| == 0 then 0
    else if pat <= s then 1 + Count(s[|pat|..], pat)
    else Count(s[1..], pat)
  }

  /** A chunk without the pattern's first character contributes no occurrence. */
  lemma {:induction false} CountFree(c: string, rest: string, pat: string)
    requires 0 < |pat| && pat[0] !in c
    ensures Count(c + rest, pat) == Count(rest, pat)
    decreases |c|
  {
    if |c| == 0 {
      assert c + rest == rest;
    } else {
      assert (c + rest)[0] == c[0];
      assert (c + rest)[1..] == c[1..] + rest;
      CountFree(c[1..], rest, pat);
    }
  }

  /** An occurrence at the front is counted once and skipped. */
  lemma CountHead(rest: string, pat: string)
    requires 0 < |pat|
    ensures Count(pat + rest, pat) == 1 + Count(rest, pat)
  {
    assert (pat + rest)[|pat|..] == rest;
  }

  /** A front character that does not start an occurrence is skipped. */
  lemma CountMiss(c: char, rest: string, pat: string)
    requires 0 < |pat| && !(pat <= [c] + rest)
    ensures Count([c] + rest, pat) == Count(rest, pat)
  {
    assert ([c] + rest)[1..] == rest;
  }

  /**
   * Every replacement changes the length by |rep| - |pat|: the replaced
   * occurrences are exactly the ones strings.Count counts.
   */
  lemma {:induction false} ReplaceAllLength(s: string, pat: string, rep: string)
    requires 0 < |pat|
    ensures |ReplaceAll(s, pat, rep)| == |s| + Count(s, pat) * (|rep| - |pat|)
    decreases |s|
  {
    if |s| > 0 {
      if pat <= s {
        var t := s[|pat|..];
        ReplaceAllLength(t, pat, rep);
        LengthStepHit(s, pat, rep, |ReplaceAll(t, pat, rep)|, Count(t, pat));
      } else {
        var t := s[1..];
        ReplaceAllLength(t, pat, rep);
        LengthStepMiss(s, pat, rep);
      }
    }
  }

  lemma LengthStepHit(s: string, pat: string, rep: string, m: int, n: nat)
    requires 0 < |pat| && pat <= s
    requires m == |ReplaceAll(s[|pat|..], pat, rep)| && n == Count(s[|pat|..], pat)
    requires m == |s| - |pat| + n * (|rep| - |pat|)
    ensures |ReplaceAll(s, pat, rep)| == |s| + Count(s, pat) * (|rep| - |pat|)
  {
    var t := s[|pat|..];
    assert s == pat + t;
    ReplaceHead(t, pat, rep);
    CountHead(t, pat);
    MulSucc(n, |rep| - |pat|);
  }

  lemma MulSucc(n: nat, d: int)
    ensures (1 + n) * d == d + n * d
  {
  }

  lemma LengthStepMiss(s: string, pat: string, rep: string)
    requires 0 < |pat| && 0 < |s| && !(pat <= s)
    requires |ReplaceAll(s[1..], pat, rep)| == |s| - 1 + Count(s[1..], pat) * (|rep| - |pat|)
    ensures |ReplaceAll(s, pat, rep)| == |s| + Count(s, pat) * (|rep| - |pat|)
  {
    assert |ReplaceAll(s, pat, rep)| == 1 + |ReplaceAll(s[1..], pat, rep)|;
    assert Count(s, pat) == Count(s[1..], pat);
  }

  /** What strings.Replace does for an empty pattern: `rep` before every rune and once at the end. */
  function InsertAround(s: string, rep: string): string
    decreases |s|
  {
    if |s| == 0 then rep else rep + [s[0]] + InsertAround(s[1..], rep)
  }

  /**
   * strings.ReplaceAll(s, pat, rep): scans left to right, replaces the leftmost
   * occurrence of `pat`, resumes after it (occurrences never overlap) and never
   * rescans the text it has just inserted.
   */
  function ReplaceAll(s: string, pat: string, rep: string): string
    decreases |s|
  {
    if |pat| == 0 then InsertAround(s, rep)
    else if |s| == 0 then []
    else if pat <= s then rep + ReplaceAll(s[|pat|..], pat, rep)
    else [s[0]] + ReplaceAll(s[1..], pat, rep)
  }

  /** If no occurrence of `pat` starts before position `k`, the first `k` characters are copied. */
  lemma {:induction false} ReplaceAllSkip(s: string, pat: string, rep: string, k: nat)
    requires 0 < |pat| && k <= |s|
    requires forall i :: 0 <= i < k ==> !MatchAt(s, pat, i)
    ensures ReplaceAll(s, pat, rep) == s[..k] + ReplaceAll(s[k..], pat, rep)
    decreases k
  {
    if k == 0 {
      assert s[..0] + ReplaceAll(s[0..], pat, rep) == ReplaceAll(s, pat, rep) by {
        assert s[0..] == s;
      }
    } else {
      var t := s[1..];
      SkipShift(s, pat, k);
      ReplaceAllSkip(t, pat, rep, k - 1);
      assert ReplaceAll(s, pat, rep) == [s[0]] + ReplaceAll(t, pat, rep);
      SliceShift(s, k);
      AppendAssoc([s[0]], t[..k - 1], ReplaceAll(s[k..], pat, rep));
    }
  }

  /** No match in the first k positions: none at 0, and none in the first k - 1 of the tail. */
  lemma SkipShift(s: string, pat: string, k: nat)
    requires 0 < k <= |s|
    requires forall i :: 0 <= i < k ==> !MatchAt(s, pat, i)
    ensures !(pat <= s)
    ensures forall i :: 0 <= i < k - 1 ==> !MatchAt(s[1..], pat, i)
  {
    assert s[0..] == s;
    assert !MatchAt(s, pat, 0);
    forall i | 0 <= i < k - 1
      ensures !MatchAt(s[1..], pat, i)
    {
      assert s[1..][i..] == s[i + 1..];
      assert !MatchAt(s, pat, i + 1);
    }
  }

  lemma SliceShift(s: string, k: nat)
    requires 0 < k <= |s|
    ensures [s[0]] + s[1..][..k - 1] == s[..k]
    ensures s[1..][k - 1..] == s[k..]
  {
  }

  /** A string with no occurrence of `pat` comes back unchanged. */
  lemma ReplaceAllNoMatch(s: string, pat: string, rep: string)
    requires 0 < |pat|
    requires forall i :: !MatchAt(s, pat, i)
    ensures ReplaceAll(s, pat, rep) == s
  {
    ReplaceAllSkip(s, pat, rep, |s|);
    assert s[..|s|] == s;
  }

  /** Replacing a pattern by itself changes nothing (Go returns `s` early when old == new). */
  lemma {:induction false} ReplaceAllSelf(s: string, pat: string)
    ensures ReplaceAll(s, pat, pat) == s
    decreases |s|
  {
    if |pat| == 0 {
      InsertAroundEmpty(s);
    } else if |s| > 0 {
      if pat <= s {
        ReplaceAllSelf(s[|pat|..], pat);
        assert s == pat + s[|pat|..];
      } else {
        ReplaceAllSelf(s[1..], pat);
        assert s == [s[0]] + s[1..];
      }
    }
  }

  lemma {:induction false} InsertAroundEmpty(s: string)
    ensures InsertAround(s, []) == s
    decreases |s|
  {
    if |s| > 0 {
      InsertAroundEmpty(s[1..]);
      assert s == [s[0]] + s[1..];
    }
  }

  /** One step of the Index loop: the text before the leftmost occurrence, the replacement, the rest. */
  lemma ReplaceAllAtIndex(t: string, pat: string, rep: string, j: int)
    requires 0 < |pat| && MatchAt(t, pat, j)
    requires forall i :: 0 <= i < j ==> !MatchAt(t, pat, i)
    ensures j + |pat| <= |t|
    ensures ReplaceAll(t, pat, rep) == t[..j] + rep + ReplaceAll(t[j + |pat|..], pat, rep)
  {
    var after := t[j + |pat|..];
    assert t[j..] == pat + after;
    ReplaceAllSkip(t, pat, rep, j);
    calc {
      ReplaceAll(t, pat, rep);
      t[..j] + ReplaceAll(t[j..], pat, rep);
      t[..j] + ReplaceAll(pat + after, pat, rep);
      { ReplaceHead(after, pat, rep); }
      t[..j] + (rep + ReplaceAll(after, pat, rep));
    }
  }

  /** `ReplaceAllAtIndex` for the suffix of `s` that starts at `start`. */
  lemma ReplaceAllFrom(s: string, start: nat, pat: string, rep: string, j: int)
    requires 0 < |pat| && start <= |s| && 0 <= j && j == Index(s[start..], pat)
    ensures start + j + |pat| <= |s|
    ensures ReplaceAll(s[start..], pat, rep)
         == (s[start..start + j] + rep) + ReplaceAll(s[start + j + |pat|..], pat, rep)
  {
    var t := s[start..];
    ReplaceAllAtIndex(t, pat, rep, j);
    assert t[j + |pat|..] == s[start + j + |pat|..];
    assert t[..j] == s[start..start + j];
  }

  /** One step of the empty-pattern loop. */
  lemma InsertAroundStep(s: string, rep: string, i: nat)
    requires i < |s|
    ensures InsertAround(s[i..], rep) == rep + [s[i]] + InsertAround(s[i + 1..], rep)
  {
    assert s[i..][1..] == s[i + 1..];
  }

  /**
   * Go's strings.Replace with n = -1: returns `s` at once when the pattern
   * equals the replacement, otherwise runs the Index loop (non-empty pattern)
   * or the rune loop (empty pattern). It computes `ReplaceAll`.
   */
  method ReplaceAllLoop(s: string, pat: string, rep: string) returns (r: string)
    ensures r == ReplaceAll(s, pat, rep)
  {
    if pat == rep {
      ReplaceAllSelf(s, pat);
      r := s;
    } else if |pat| == 0 {
      r := InsertAroundLoop(s, rep);
    } else {
      r := ReplaceByIndex(s, pat, rep);
    }
  }

  /** The empty-pattern branch of strings.Replace: the replacement before every rune and at the end. */
  method InsertAroundLoop(s: string, rep: string) returns (r: string)
    ensures r == ReplaceAll(s, [], rep)
  {
    r := [];
    var i := 0;
    while i < |s|
      invariant 0 <= i <= |s|
      invariant r + InsertAround(s[i..], rep) == InsertAround(s, rep)
    {
      InsertAroundStep(s, rep, i);
      AppendAssoc(r, rep + [s[i]], InsertAround(s[i + 1..], rep));
      r := r + (rep + [s[i]]);
      i := i + 1;
    }
    assert s[i..] == [];
    r := r + rep;
  }

  /**
   * The non-empty-pattern branch of strings.Replace: find the next occurrence
   * with Index, emit the text before it and the replacement, and continue
   * after the occurrence.
   */
  method ReplaceByIndex(s: string, pat: string, rep: string) returns (r: string)
    requires 0 < |pat|
    ensures r == ReplaceAll(s, pat, rep)
  {
    var start := 0;
    var j := Index(s, pat);
    r := [];
    while j >= 0
      invariant 0 <= start <= |s|
      invariant j == Index(s[start..], pat)
      invariant r + ReplaceAll(s[start..], pat, rep) == ReplaceAll(s, pat, rep)
      decreases |s| - start
    {
      ReplaceAllFrom(s, start, pat, rep, j);
      var chunk := s[start..start + j] + rep;
      var next := start + j + |pat|;
      AppendAssoc(r, chunk, ReplaceAll(s[next..], pat, rep));
      r := r + chunk;
      start := next;
      j := Index(s[start..], pat);
    }
    ReplaceAllAfterLast(s[start..], pat, rep);
    r := r + s[start..];
  }

  lemma AppendAssoc(a: string, b: string, c: string)
    ensures (a + b) + c == a + (b + c)
  {
  }

  /** A string is its known prefix followed by the rest. */
  lemma PrefixSplit(p: string, s: string)
    requires p <= s
    ensures s == p + s[|p|..]
  {
  }

  /** When Index finds nothing, the rest is copied unchanged. */
  lemma ReplaceAllAfterLast(t: string, pat: string, rep: string)
    requires 0 < |pat| && Index(t, pat) < 0
    ensures ReplaceAll(t, pat, rep) == t
  {
    ReplaceAllNoMatch(t, pat, rep);
  }

  // ---------------------------------------------------------------------------
  // Chunk lemmas: how one ReplaceAll pass treats a known leading chunk.

  /** A chunk that does not contain the pattern's first character is copied verbatim. */
  lemma CopyFree(c: string, rest: string, pat: string, rep: string)
    requires 0 < |pat| && pat[0] !in c
    ensures ReplaceAll(c + rest, pat, rep) == c + ReplaceAll(rest, pat, rep)
  {
    var s := c + rest;
    forall i | 0 <= i < |c|
      ensures !MatchAt(s, pat, i)
    {
      assert s[i..][0] == c[i];
    }
    ReplaceAllSkip(s, pat, rep, |c|);
    assert s[..|c|] == c;
    assert s[|c|..] == rest;
  }

  /**
   * A chunk whose head does not start the pattern (they differ at index `k`) and
   * whose tail does not contain the pattern's first character is copied verbatim.
   */
  lemma CopyChunk(c: string, rest: string, pat: string, rep: string, k: nat)
    requires 0 < |pat| && k < |c| && k < |pat| && c[k] != pat[k]
    requires pat[0] !in c[1..]
    ensures ReplaceAll(c + rest, pat, rep) == c + ReplaceAll(rest, pat, rep)
  {
    var s := c + rest;
    forall i | 0 <= i < |c|
      ensures !MatchAt(s, pat, i)
    {
      if i == 0 {
        assert s[0..][k] == c[k];
      } else {
        assert s[i..][0] == c[1..][i - 1];
      }
    }
    ReplaceAllSkip(s, pat, rep, |c|);
    assert s[..|c|] == c;
    assert s[|c|..] == rest;
  }

  /** A string that differs from `pat` at index `k` does not start with `pat`. */
  lemma NotPrefixAt(s: string, pat: string, k: nat)
    requires k < |s| && k < |pat| && s[k] != pat[k]
    ensures !(pat <= s)
  {
  }

  /** A pass whose input starts with its pattern emits the replacement and goes on after it. */
  lemma ReplaceHead(rest: string, pat: string, rep: string)
    requires 0 < |pat|
    ensures ReplaceAll(pat + rest, pat, rep) == rep + ReplaceAll(rest, pat, rep)
  {
    assert (pat + rest)[|pat|..] == rest;
  }

  /** A pass whose input does not start with its pattern copies the first character. */
  lemma ReplaceMiss(c: char, rest: string, pat: string, rep: string)
    requires 0 < |pat| && !(pat <= [c] + rest)
    ensures ReplaceAll([c] + rest, pat, rep) == [c] + ReplaceAll(rest, pat, rep)
  {
    assert ([c] + rest)[1..] == rest;
  }

  /**
   * If the output of a pass starts with `p` and the replacement's first
   * character does not occur in `p`, the input already started with `p`.
   */
  lemma {:induction false} ReflectFree(t: string, p: string, pat: string, rep: string)
    requires 0 < |pat| && 0 < |rep| && rep[0] !in p
    ensures p <= ReplaceAll(t, pat, rep) ==> p <= t
    decreases |t|
  {
    HeadOfReplace(t, pat, rep);
    if |p| > 0 && |t| > 0 && !(pat <= t) && p <= ReplaceAll(t, pat, rep) {
      assert t == [t[0]] + t[1..];
      ReplaceMiss(t[0], t[1..], pat, rep);
      PrefixOfCons(t[0], ReplaceAll(t[1..], pat, rep), p);
      ReflectFree(t[1..], p[1..], pat, rep);
      PrefixOfCons(t[0], t[1..], p);
    }
  }

  /** Output of a pass on empty input is empty; on input starting with the pattern it starts with the replacement. */
  lemma HeadOfReplace(t: string, pat: string, rep: string)
    requires 0 < |pat|
    ensures |t| == 0 ==> ReplaceAll(t, pat, rep) == []
    ensures pat <= t ==> rep <= ReplaceAll(t, pat, rep)
  {
    if pat <= t {
      assert t == pat + t[|pat|..];
      ReplaceHead(t[|pat|..], pat, rep);
    }
  }

  /**
   * As `ReflectFree`, when `p` may start like the replacement but differs
   * from it at index `k`, and the replacement's first character does not occur
   * in the rest of `p`.
   */
  lemma ReflectChunk(t: string, p: string, pat: string, rep: string, k: nat)
    requires 0 < |pat| && k < |rep| && k < |p| && rep[k] != p[k]
    requires rep[0] !in p[1..]
    ensures p <= ReplaceAll(t, pat, rep) ==> p <= t
  {
    HeadOfReplace(t, pat, rep);
    if |t| > 0 && !(pat <= t) && p <= ReplaceAll(t, pat, rep) {
      assert t == [t[0]] + t[1..];
      ReplaceMiss(t[0], t[1..], pat, rep);
      PrefixOfCons(t[0], ReplaceAll(t[1..], pat, rep), p);
      ReflectFree(t[1..], p[1..], pat, rep);
      PrefixOfCons(t[0], t[1..], p);
    }
  }

  /** A chunk whose first two characters both fail to start the pattern is copied verbatim. */
  lemma CopyChunk2(c: string, rest: string, pat: string, rep: string, k0: nat, k1: nat)
    requires 0 < |pat| && k0 < |c| && k0 < |pat| && c[k0] != pat[k0]
    requires 1 + k1 < |c| && k1 < |pat| && c[1 + k1] != pat[k1]
    requires pat[0] !in c[2..]
    ensures ReplaceAll(c + rest, pat, rep) == c + ReplaceAll(rest, pat, rep)
  {
    var s := c + rest;
    forall i | 0 <= i < |c|
      ensures !MatchAt(s, pat, i)
    {
      if i == 0 {
        assert s[0..][k0] == c[k0];
      } else if i == 1 {
        assert s[1..][k1] == c[1 + k1];
      } else {
        assert s[i..][0] == c[2..][i - 2];
      }
    }
    ReplaceAllSkip(s, pat, rep, |c|);
    assert s[..|c|] == c;
    assert s[|c|..] == rest;
  }

  /** A prefix of `[c] + x`, when it is not empty, is `c` followed by a prefix of `x`. */
  lemma PrefixOfCons(c: char, x: string, q: string)
    requires 0 < |q|
    ensures q <= [c] + x <==> q[0] == c && q[1..] <= x
  {
    if q[0] == c && q[1..] <= x {
      assert q == [c] + q[1..];
    }
    if q <= [c] + x {
      assert q[1..] == ([c] + x)[1..|q|];
    }
  }
}
