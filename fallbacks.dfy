/**
 * `fallbacks(first, ...next)`: merges reference expressions into one nested
 * CSS fallback chain, `var(--a)`, `var(--b)` giving `var(--a,var(--b))`.
 */
module Fallbacks {

  /** `n` closing parentheses. */
  function Closers(n: nat): (s: string)
    ensures |s| == n
  {
    if n == 0 then "" else Closers(n - 1) + ")"
  }

  /** The length of the maximal run of `)` that ends `s` (the regex `/\)+$/`). */
  function TrailingCloseCount(s: string): (n: nat)
    ensures n <= |s|
    ensures n < |s| ==> s[|s| - n - 1] != ')'
  {
    if |s| > 0 && s[|s| - 1] == ')' then TrailingCloseCount(s[..|s| - 1]) + 1 else 0
  }

  /** The counted run consists of `)` only. */
  lemma {:induction false} TrailingCloseRun(s: string)
    ensures s[|s| - TrailingCloseCount(s)..] == Closers(TrailingCloseCount(s))
    decreases |s|
  {
    var n := TrailingCloseCount(s);
    if n > 0 {
      var s' := s[..|s| - 1];
      var m := TrailingCloseCount(s');
      assert n == m + 1;
      assert s == s' + [')'];
      TrailingCloseRun(s');
      assert s[|s| - n..] == s'[|s'| - m..] + [')'];
    }
  }

  /** `s` without its trailing run of `)`. */
  function Stripped(s: string): string
  {
    s[..|s| - TrailingCloseCount(s)]
  }

  /** Putting back the stripped `)`s restores the reference; what remains never ends in `)`. */
  lemma StrippedRestores(s: string)
    ensures Stripped(s) + Closers(TrailingCloseCount(s)) == s
    ensures |Stripped(s)| > 0 ==> Stripped(s)[|Stripped(s)| - 1] != ')'
  {
    var n := TrailingCloseCount(s);
    TrailingCloseRun(s);
    assert s == s[..|s| - n] + s[|s| - n..];
  }

  /** The fragment contributed by `refs[i]`: stripped, and followed by a comma unless it is the last. */
  function Piece(refs: seq<string>, i: nat): string
    requires i < |refs|
  {
    Stripped(refs[i]) + (if i < |refs| - 1 then "," else "")
  }

  /** The fragments of the first `i` references, in order. */
  function Joined(refs: seq<string>, i: nat): string
    requires i <= |refs|
  {
    if i == 0 then "" else Joined(refs, i - 1) + Piece(refs, i - 1)
  }

  /** How many `)` the first `i` references lose to stripping. */
  function ClosingUpTo(refs: seq<string>, i: nat): nat
    requires i <= |refs|
  {
    if i == 0 then 0 else ClosingUpTo(refs, i - 1) + TrailingCloseCount(refs[i - 1])
  }

  /** The composed chain; a single reference is returned as it is. */
  function Fallbacks(first: string, next: seq<string>): string
  {
    if |next| == 0 then first
    else
      var refs := [first] + next;
      Joined(refs, |refs|) + Closers(ClosingUpTo(refs, |refs|))
  }

  /** The loop of the source: strip each reference, tally what was stripped, then close. */
  method ComposeFallbacks(first: string, next: seq<string>) returns (r: string)
    ensures r == Fallbacks(first, next)
  {
    if |next| == 0 {
      return first;
    }
    var refs := [first] + next;
    var totalClosingCount := 0;
    var joined := "";
    var i := 0;
    while i < |refs|
      invariant 0 <= i <= |refs|
      invariant totalClosingCount == ClosingUpTo(refs, i)
      invariant joined == Joined(refs, i)
    {
      var ref := refs[i];
      var closingCount := TrailingCloseCount(ref);
      totalClosingCount := totalClosingCount + closingCount;
      joined := joined + ref[..|ref| - closingCount] + (if i < |refs| - 1 then "," else "");
      i := i + 1;
    }
    r := joined + Closers(totalClosingCount);
  }

  // ----- the shape of the result -----

  /** A single argument comes back unchanged. */
  lemma FallbacksOfOne(first: string)
    ensures Fallbacks(first, []) == first
  {
  }

  /** Two arguments: both stripped, joined by one comma, closed by all that was stripped. */
  lemma FallbacksOfTwo(a: string, b: string)
    ensures Fallbacks(a, [b])
         == Stripped(a) + "," + Stripped(b) + Closers(TrailingCloseCount(a) + TrailingCloseCount(b))
  {
    var refs := [a] + [b];
    assert |refs| == 2 && refs[0] == a && refs[1] == b;
    assert Piece(refs, 0) == Stripped(a) + ",";
    assert Piece(refs, 1) == Stripped(b);
    assert Joined(refs, 1) == Piece(refs, 0);
    assert Joined(refs, 2) == Stripped(a) + "," + Stripped(b);
    assert ClosingUpTo(refs, 1) == TrailingCloseCount(a);
    assert ClosingUpTo(refs, 2) == TrailingCloseCount(a) + TrailingCloseCount(b);
    assert Fallbacks(a, [b]) == Joined(refs, 2) + Closers(ClosingUpTo(refs, 2));
  }

  /** Closing parentheses written after a character that is not one form exactly the trailing run. */
  lemma {:induction false} TrailingCloseAfter(a: string, n: nat)
    requires |a| > 0 && a[|a| - 1] != ')'
    ensures TrailingCloseCount(a + Closers(n)) == n
    decreases n
  {
    if n == 0 {
      assert a + Closers(0) == a;
    } else {
      TrailingCloseAfter(a, n - 1);
      assert (a + Closers(n))[..|a| + n - 1] == a + Closers(n - 1);
    }
  }

  /** With two or more references the joined fragments never end in `)`: a fragment is stripped, or a comma follows it. */
  lemma JoinedEnd(refs: seq<string>)
    requires |refs| >= 2
    ensures |Joined(refs, |refs|)| > 0
    ensures Joined(refs, |refs|)[|Joined(refs, |refs|)| - 1] != ')'
  {
    var n := |refs|;
    var last := Stripped(refs[n - 1]);
    assert Joined(refs, n) == Joined(refs, n - 1) + last;
    assert Joined(refs, n - 1) == Joined(refs, n - 2) + Stripped(refs[n - 2]) + ",";
  }

  /** The result ends in exactly as many `)` as were stripped from all the references together. */
  lemma FallbacksClosing(first: string, next: seq<string>)
    requires |next| > 0
    ensures TrailingCloseCount(Fallbacks(first, next)) == ClosingUpTo([first] + next, |next| + 1)
  {
    var refs := [first] + next;
    JoinedEnd(refs);
    TrailingCloseAfter(Joined(refs, |refs|), ClosingUpTo(refs, |refs|));
  }

  /** A reference closed by a single `)` loses exactly that one. */
  lemma StripOneClosing(x: string)
    requires |x| > 0 && x[|x| - 1] != ')'
    ensures TrailingCloseCount("var(" + x + ")") == 1
    ensures Stripped("var(" + x + ")") == "var(" + x
  {
    var a := "var(" + x;
    assert a[|a| - 1] == x[|x| - 1];
    assert "var(" + x + ")" == a + Closers(1);
    TrailingCloseAfter(a, 1);
  }

  /** Two references, each closed by a single `)`: the second becomes the fallback of the first. */
  lemma FallbacksOfTwoReferences(x: string, y: string)
    requires |x| > 0 && x[|x| - 1] != ')'
    requires |y| > 0 && y[|y| - 1] != ')'
    ensures Fallbacks("var(" + x + ")", ["var(" + y + ")"]) == "var(" + x + ",var(" + y + "))"
  {
    var a, b := "var(" + x + ")", "var(" + y + ")";
    StripOneClosing(x);
    StripOneClosing(y);
    FallbacksOfTwo(a, b);
    assert Closers(2) == "))";
    assert Fallbacks(a, [b]) == ("var(" + x) + "," + ("var(" + y) + "))";
  }

  /** Concrete case: two plain references. */
  lemma FallbacksPlainExample()
    ensures Fallbacks("var(--a)", ["var(--b)"]) == "var(--a,var(--b))"
  {
    FallbacksOfTwoReferences("--a", "--b");
    assert "var(" + "--a" + ")" == "var(--a)" && "var(" + "--b" + ")" == "var(--b)";
    assert "var(" + "--a" + ",var(" + "--b" + "))" == "var(--a,var(--b))";
  }

  /** Concrete case: a reference that already has a fallback keeps it, and its `)` moves to the end. */
  lemma FallbacksNestedExample()
    ensures Fallbacks("var(--a, 0)", ["var(--b)"]) == "var(--a, 0,var(--b))"
  {
    FallbacksOfTwoReferences("--a, 0", "--b");
    assert "var(" + "--a, 0" + ")" == "var(--a, 0)" && "var(" + "--b" + ")" == "var(--b)";
    assert "var(" + "--a, 0" + ",var(" + "--b" + "))" == "var(--a, 0,var(--b))";
  }

  // ----- nothing is lost or invented -----

  function Count(c: char, s: string): nat
  {
    if s == [] then 0 else Count(c, s[..|s| - 1]) + (if s[|s| - 1] == c then 1 else 0)
  }

  /** Occurrences of `c` in the first `i` references. */
  function CountIn(c: char, refs: seq<string>, i: nat): nat
    requires i <= |refs|
  {
    if i == 0 then 0 else CountIn(c, refs, i - 1) + Count(c, refs[i - 1])
  }

  lemma {:induction false} CountConcat(c: char, a: string, b: string)
    ensures Count(c, a + b) == Count(c, a) + Count(c, b)
    decreases |b|
  {
    if b == [] {
      assert a + b == a;
    } else {
      CountConcat(c, a, b[..|b| - 1]);
      assert (a + b)[..|a + b| - 1] == a + b[..|b| - 1];
    }
  }

  lemma {:induction false} CountClosers(c: char, n: nat)
    ensures Count(c, Closers(n)) == if c == ')' then n else 0
    decreases n
  {
    if n > 0 {
      CountClosers(c, n - 1);
      assert Closers(n)[..n - 1] == Closers(n - 1);
    }
  }

  /** Stripping keeps every character but the trailing `)`s. */
  lemma CountStripped(c: char, s: string)
    ensures Count(c, Stripped(s)) + (if c == ')' then TrailingCloseCount(s) else 0) == Count(c, s)
  {
    StrippedRestores(s);
    CountConcat(c, Stripped(s), Closers(TrailingCloseCount(s)));
    CountClosers(c, TrailingCloseCount(s));
  }

  /** One fragment keeps its reference's characters but the stripped `)`s, plus its comma if any. */
  lemma CountPiece(c: char, refs: seq<string>, j: nat)
    requires j < |refs|
    ensures Count(c, Piece(refs, j)) + (if c == ')' then TrailingCloseCount(refs[j]) else 0)
         == Count(c, refs[j]) + (if c == ',' && j < |refs| - 1 then 1 else 0)
  {
    var sep := if j < |refs| - 1 then "," else "";
    assert ","[..0] == "";
    assert Count(c, sep) == if c == ',' && j < |refs| - 1 then 1 else 0;
    CountConcat(c, Stripped(refs[j]), sep);
    CountStripped(c, refs[j]);
  }

  lemma {:induction false} CountJoined(c: char, refs: seq<string>, i: nat)
    requires 0 < |refs| && i <= |refs|
    ensures Count(c, Joined(refs, i)) + (if c == ')' then ClosingUpTo(refs, i) else 0)
         == CountIn(c, refs, i) + (if c == ',' then (if i < |refs| then i else |refs| - 1) else 0)
    decreases i
  {
    if i > 0 {
      CountJoined(c, refs, i - 1);
      CountConcat(c, Joined(refs, i - 1), Piece(refs, i - 1));
      CountPiece(c, refs, i - 1);
    }
  }

  /**
   * Every character of the inputs survives, and only commas are added: one
   * between each pair of neighbouring references.
   */
  lemma FallbacksCount(c: char, first: string, next: seq<string>)
    ensures Count(c, Fallbacks(first, next))
         == CountIn(c, [first] + next, |next| + 1) + (if c == ',' then |next| else 0)
  {
    var refs := [first] + next;
    if |next| == 0 {
      assert CountIn(c, refs, 1) == Count(c, first);
    } else {
      CountJoined(c, refs, |refs|);
      CountConcat(c, Joined(refs, |refs|), Closers(ClosingUpTo(refs, |refs|)));
      CountClosers(c, ClosingUpTo(refs, |refs|));
    }
  }

  // ----- balanced in, balanced out -----

  /** Open minus closed parentheses. */
  function Depth(s: string): int
  {
    Count('(', s) - Count(')', s)
  }

  /** No prefix closes more parentheses than it opens (checked one character at a time). */
  ghost predicate PrefixSafe(s: string)
    decreases |s|
  {
    |s| == 0 || (Depth(s) >= 0 && PrefixSafe(s[..|s| - 1]))
  }

  ghost predicate Balanced(s: string)
  {
    PrefixSafe(s) && Depth(s) == 0
  }

  lemma DepthConcat(a: string, b: string)
    ensures Depth(a + b) == Depth(a) + Depth(b)
  {
    CountConcat('(', a, b);
    CountConcat(')', a, b);
  }

  /** What `PrefixSafe` means: every prefix has non-negative depth. */
  lemma {:induction false} PrefixSafeAt(s: string, i: nat)
    requires PrefixSafe(s) && i <= |s|
    ensures PrefixSafe(s[..i]) && Depth(s[..i]) >= 0
    decreases |s|
  {
    if i < |s| {
      assert s[..|s| - 1][..i] == s[..i];
      PrefixSafeAt(s[..|s| - 1], i);
    } else {
      assert s[..i] == s;
    }
  }

  lemma {:induction false} PrefixSafeConcat(a: string, b: string)
    requires PrefixSafe(a) && PrefixSafe(b)
    ensures PrefixSafe(a + b)
    decreases |b|
  {
    if b == [] {
      assert a + b == a;
    } else {
      var b' := b[..|b| - 1];
      PrefixSafeConcat(a, b');
      assert (a + b)[..|a + b| - 1] == a + b';
      DepthConcat(a, b);
      PrefixSafeAt(a, |a|);
      assert a[..|a|] == a;
    }
  }

  /** Closing at most the open parentheses keeps every prefix safe. */
  lemma {:induction false} CloseSome(a: string, k: nat)
    requires PrefixSafe(a) && Depth(a) >= k
    ensures PrefixSafe(a + Closers(k)) && Depth(a + Closers(k)) == Depth(a) - k
    decreases k
  {
    DepthConcat(a, Closers(k));
    CountClosers('(', k);
    CountClosers(')', k);
    if k == 0 {
      assert a + Closers(0) == a;
    } else {
      CloseSome(a, k - 1);
      assert (a + Closers(k))[..|a| + k - 1] == a + Closers(k - 1);
    }
  }

  /** A balanced reference, stripped, is still safe and left open by exactly what was stripped. */
  lemma StrippedOpen(s: string)
    requires Balanced(s)
    ensures PrefixSafe(Stripped(s))
    ensures Depth(Stripped(s)) == TrailingCloseCount(s)
  {
    StrippedRestores(s);
    PrefixSafeAt(s, |Stripped(s)|);
    DepthConcat(Stripped(s), Closers(TrailingCloseCount(s)));
    CountClosers('(', TrailingCloseCount(s));
    CountClosers(')', TrailingCloseCount(s));
  }

  /** One fragment of the chain: safe, and left open by what its reference lost. */
  lemma PieceOpen(refs: seq<string>, j: nat)
    requires j < |refs| && Balanced(refs[j])
    ensures PrefixSafe(Piece(refs, j))
    ensures Depth(Piece(refs, j)) == TrailingCloseCount(refs[j])
  {
    var t := Stripped(refs[j]);
    var sep := if j < |refs| - 1 then "," else "";
    StrippedOpen(refs[j]);
    assert Depth(sep) == 0 && PrefixSafe(sep) by {
      assert ","[..0] == "";
      assert Count('(', ",") == 0 && Count(')', ",") == 0;
    }
    PrefixSafeConcat(t, sep);
    DepthConcat(t, sep);
  }

  lemma {:induction false} JoinedOpen(refs: seq<string>, i: nat)
    requires i <= |refs|
    requires forall j :: 0 <= j < |refs| ==> Balanced(refs[j])
    ensures PrefixSafe(Joined(refs, i))
    ensures Depth(Joined(refs, i)) == ClosingUpTo(refs, i)
    decreases i
  {
    if i > 0 {
      var prev, piece := Joined(refs, i - 1), Piece(refs, i - 1);
      assert Joined(refs, i) == prev + piece;
      JoinedOpen(refs, i - 1);
      PieceOpen(refs, i - 1);
      PrefixSafeConcat(prev, piece);
      DepthConcat(prev, piece);
    }
  }

  /** Balanced references compose into a balanced chain. */
  lemma FallbacksBalanced(first: string, next: seq<string>)
    requires Balanced(first)
    requires forall j :: 0 <= j < |next| ==> Balanced(next[j])
    ensures Balanced(Fallbacks(first, next))
  {
    if |next| > 0 {
      var refs := [first] + next;
      assert forall j :: 0 <= j < |refs| ==> Balanced(refs[j]) by {
        forall j | 0 <= j < |refs| ensures Balanced(refs[j]) {
          if j > 0 { assert refs[j] == next[j - 1]; }
        }
      }
      JoinedOpen(refs, |refs|);
      CloseSome(Joined(refs, |refs|), ClosingUpTo(refs, |refs|));
    }
  }
}
