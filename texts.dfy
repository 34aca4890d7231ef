/**
 * Building the passage for a test: the stock passages are shuffled (a
 * Fisher-Yates pass over an array of their indices) and appended, separated by
 * single spaces, pass after pass until the text reaches the minimum length.
 *
 * The passages are a parameter: any non-empty list of non-empty strings. The
 * random number generator is a stream `random`, where `random(k)` is the value
 * in [0, 1) that the k-th call returns.
 */
module Texts {
  import opened Wrappers
  import opened Numbers

  /** Minimum number of characters ever generated. */
  const MinPassageLength: int := 15000

  /** Duration used when none is given, in seconds. */
  const DefaultDuration: int := 600

  /** Characters needed for a test: 120 words per minute of 5 characters for
      the duration, but never fewer than the minimum. */
  function MinChars(durationSeconds: Option<int>): (m: int)
    ensures m as real ==
      Max(MinPassageLength as real, (durationSeconds.GetOr(DefaultDuration) as real / 60.0) * 120.0 * 5.0)
    ensures m >= MinPassageLength
  {
    var d := durationSeconds.GetOr(DefaultDuration);
    if 10 * d > MinPassageLength then 10 * d else MinPassageLength
  }

  // ---------------------------------------------------------------------------
  // The shuffle
  // ---------------------------------------------------------------------------

  /** A value `Math.random` can return. */
  type Fraction = r: real | 0.0 <= r < 1.0

  /** `Math.floor(r * (i + 1))`: the position to swap with position `i`. */
  function Pick(r: Fraction, i: nat): (j: nat)
    ensures j <= i
  {
    var x := r * (i + 1) as real;
    FractionBelow(r, (i + 1) as real);
    x.Floor
  }

  lemma FractionBelow(r: real, m: real)
    requires 0.0 <= r < 1.0 && m > 0.0
    ensures 0.0 <= r * m < m
  {
  }

  function Swap(s: seq<nat>, i: nat, j: nat): seq<nat>
    requires i < |s| && j < |s|
  {
    s[i := s[j]][j := s[i]]
  }

  lemma SwapPermutes(s: seq<nat>, i: nat, j: nat)
    requires i < |s| && j < |s|
    ensures |Swap(s, i, j)| == |s|
    ensures multiset(Swap(s, i, j)) == multiset(s)
  {
  }

  /** The shuffle from position `i` down to position 1, drawing the random
      values from index `draw` on. */
  function ShuffleDown(s: seq<nat>, i: int, random: nat -> Fraction, draw: nat): seq<nat>
    requires i < |s|
    decreases i
  {
    if i <= 0 then s
    else ShuffleDown(Swap(s, i, Pick(random(draw), i)), i - 1, random, draw + 1)
  }

  /** A shuffle only reorders. */
  lemma {:induction false} ShuffleDownPermutes(s: seq<nat>, i: int, random: nat -> Fraction, draw: nat)
    requires i < |s|
    ensures |ShuffleDown(s, i, random, draw)| == |s|
    ensures multiset(ShuffleDown(s, i, random, draw)) == multiset(s)
    decreases i
  {
    if i > 0 {
      var j := Pick(random(draw), i);
      ShuffleDownStep(s, i, random, draw);
      SwapPermutes(s, i, j);
      ShuffleDownPermutes(Swap(s, i, j), i - 1, random, draw + 1);
    }
  }

  /** `s` holds each of 0 .. n-1 exactly once. */
  ghost predicate IsPermutation(s: seq<nat>, n: nat) {
    && |s| == n
    && (forall k :: 0 <= k < n ==> s[k] < n)
    && (forall a, b :: 0 <= a < b < n ==> s[a] != s[b])
  }

  lemma SwapKeepsPermutation(s: seq<nat>, n: nat, i: nat, j: nat)
    requires IsPermutation(s, n) && i < n && j < n
    ensures IsPermutation(Swap(s, i, j), n)
  {
    var t := Swap(s, i, j);
    forall a, b | 0 <= a < b < n
      ensures t[a] != t[b]
    {
      var a' := if a == i then j else if a == j then i else a;
      var b' := if b == i then j else if b == j then i else b;
      assert t[a] == s[a'] && t[b] == s[b'];
    }
  }

  lemma {:induction false} ShuffleDownKeepsPermutation(s: seq<nat>, n: nat, i: int, random: nat -> Fraction, draw: nat)
    requires IsPermutation(s, n) && i < n
    ensures IsPermutation(ShuffleDown(s, i, random, draw), n)
    decreases i
  {
    if i > 0 {
      var j := Pick(random(draw), i);
      var t := Swap(s, i, j);
      assert ShuffleDown(s, i, random, draw) == ShuffleDown(t, i - 1, random, draw + 1);
      SwapKeepsPermutation(s, n, i, j);
      ShuffleDownKeepsPermutation(t, n, i - 1, random, draw + 1);
    }
  }

  lemma ShuffleDownStep(s: seq<nat>, i: int, random: nat -> Fraction, draw: nat)
    requires 0 < i < |s|
    ensures ShuffleDown(s, i, random, draw)
         == ShuffleDown(Swap(s, i, Pick(random(draw), i)), i - 1, random, draw + 1)
  {
  }

  /** One Fisher-Yates pass over the whole array, in place; it uses up one
      random value per position from the last down to the second. */
  method Shuffle(indices: array<nat>, random: nat -> Fraction, draw: nat) returns (nextDraw: nat)
    modifies indices
    ensures indices[..] == ShuffleDown(old(indices[..]), indices.Length - 1, random, draw)
    ensures nextDraw == draw + if indices.Length > 1 then indices.Length - 1 else 0
  {
    ghost var target := ShuffleDown(indices[..], indices.Length - 1, random, draw);
    var i := indices.Length - 1;
    nextDraw := draw;
    while i > 0
      invariant -1 <= i < indices.Length
      invariant indices.Length > 0 ==> i >= 0
      invariant nextDraw == draw + if indices.Length > 0 then indices.Length - 1 - i else 0
      invariant ShuffleDown(indices[..], i, random, nextDraw) == target
      decreases i
    {
      var j := Pick(random(nextDraw), i);
      ghost var before := indices[..];
      ShuffleDownStep(before, i, random, nextDraw);
      var tmp := indices[i];
      indices[i] := indices[j];
      indices[j] := tmp;
      assert indices[..] == Swap(before, i, j);
      nextDraw := nextDraw + 1;
      i := i - 1;
    }
    assert ShuffleDown(indices[..], i, random, nextDraw) == indices[..];
  }

  // ---------------------------------------------------------------------------
  // The concatenation
  // ---------------------------------------------------------------------------

  ghost predicate Indices(passages: seq<string>, ks: seq<nat>) {
    forall k :: 0 <= k < |ks| ==> ks[k] < |passages|
  }

  /** The passages numbered by `ks`, in order, separated by single spaces. */
  function Join(passages: seq<string>, ks: seq<nat>): string
    requires Indices(passages, ks)
  {
    if |ks| == 0 then ""
    else if |ks| == 1 then passages[ks[0]]
    else Join(passages, ks[..|ks| - 1]) + " " + passages[ks[|ks| - 1]]
  }

  function Concat(passes: seq<seq<nat>>): seq<nat> {
    if passes == [] then [] else Concat(passes[..|passes| - 1]) + passes[|passes| - 1]
  }

  /** Length of the longest passage. */
  function Longest(passages: seq<string>): (m: nat)
    ensures forall p :: 0 <= p < |passages| ==> |passages[p]| <= m
  {
    if passages == [] then 0
    else
      var rest := Longest(passages[..|passages| - 1]);
      var last := |passages[|passages| - 1]|;
      if last > rest then last else rest
  }

  ghost predicate AllNonEmpty(passages: seq<string>) {
    forall p :: 0 <= p < |passages| ==> |passages[p]| > 0
  }

  /** Appending one more passage adds it after a single space, or alone. */
  lemma JoinSnoc(passages: seq<string>, ks: seq<nat>, k: nat)
    requires Indices(passages, ks) && k < |passages|
    ensures Indices(passages, ks + [k])
    ensures Join(passages, ks + [k]) ==
      if ks == [] then passages[k] else Join(passages, ks) + " " + passages[k]
  {
    assert (ks + [k])[..|ks|] == ks;
  }

  /** With non-empty passages, the text is empty only before the first one. */
  lemma {:induction false} JoinEmptyIff(passages: seq<string>, ks: seq<nat>)
    requires Indices(passages, ks) && AllNonEmpty(passages)
    ensures Join(passages, ks) == "" <==> ks == []
  {
    if |ks| > 1 {
      JoinEmptyIff(passages, ks[..|ks| - 1]);
    }
  }

  /** Appending passage `k` to the text of `ks` as the loop does gives the text
      of `ks + [k]`, longer by the passage and at most one space. */
  lemma JoinAppend(passages: seq<string>, ks: seq<nat>, k: nat, text: string)
    requires AllNonEmpty(passages) && Indices(passages, ks) && k < |passages|
    requires text == Join(passages, ks)
    ensures Indices(passages, ks + [k])
    ensures Join(passages, ks + [k]) == text + (if text != "" then " " else "") + passages[k]
    ensures |text| < |Join(passages, ks + [k])| <= |text| + 1 + Longest(passages)
  {
    JoinSnoc(passages, ks, k);
    JoinEmptyIff(passages, ks);
  }

  lemma ConcatSnoc(passes: seq<seq<nat>>, pass: seq<nat>)
    ensures Concat(passes + [pass]) == Concat(passes) + pass
  {
    assert (passes + [pass])[..|passes|] == passes;
  }

  /** One pass of the concatenation: appends the passages in the order of
      `indices`, each after a single space unless the text is still empty, and
      stops as soon as the text is long enough. `used` is the number of
      passages appended. */
  method AppendPass(passages: seq<string>, indices: array<nat>, text: string, ghost done: seq<nat>, minChars: int)
    returns (extended: string, used: nat)
    requires |passages| > 0 && AllNonEmpty(passages)
    requires IsPermutation(indices[..], |passages|)
    requires Indices(passages, done) && text == Join(passages, done)
    requires |text| < minChars
    ensures 0 < used <= indices.Length
    ensures Indices(passages, done + indices[..used])
    ensures extended == Join(passages, done + indices[..used])
    ensures |text| < |extended| < minChars + 1 + Longest(passages)
    ensures used < indices.Length ==> |extended| >= minChars
  {
    extended := text;
    used := 0;
    assert done + indices[..used] == done;
    while used < indices.Length
      invariant 0 <= used <= indices.Length
      invariant Indices(passages, done + indices[..used])
      invariant extended == Join(passages, done + indices[..used])
      invariant |text| <= |extended| < minChars + 1 + Longest(passages)
      invariant used > 0 ==> |extended| > |text|
      invariant used < indices.Length ==> |extended| < minChars
    {
      var idx := indices[used];
      JoinAppend(passages, done + indices[..used], idx, extended);
      assert done + indices[..used + 1] == (done + indices[..used]) + [idx];
      extended := extended + (if extended != "" then " " else "") + passages[idx];
      used := used + 1;
      if |extended| >= minChars {
        break;
      }
    }
  }

  /** The passage numbers appended in one pass: at least one, each a valid
      passage number, none twice. */
  ghost predicate PassOf(pass: seq<nat>, n: nat) {
    && 0 < |pass| <= n
    && (forall k :: 0 <= k < |pass| ==> pass[k] < n)
    && (forall a, b :: 0 <= a < b < |pass| ==> pass[a] != pass[b])
  }

  /** Every pass is a `PassOf`, and every pass but the last is complete. */
  ghost predicate WellFormedPasses(passes: seq<seq<nat>>, n: nat) {
    && (forall q :: 0 <= q < |passes| ==> PassOf(passes[q], n))
    && (forall q :: 0 <= q < |passes| - 1 ==> |passes[q]| == n)
  }

  lemma AddPass(passes: seq<seq<nat>>, pass: seq<nat>, n: nat)
    requires WellFormedPasses(passes, n) && PassOf(pass, n)
    requires passes != [] ==> |passes[|passes| - 1]| == n
    ensures WellFormedPasses(passes + [pass], n)
  {
  }

  lemma PrefixIsPass(s: seq<nat>, n: nat, used: nat)
    requires IsPermutation(s, n) && 0 < used <= n
    ensures PassOf(s[..used], n)
    ensures used == n ==> |s[..used]| == n
  {
  }

  /** Builds a passage of at least `MinChars(durationSeconds)` characters:
      shuffled passes over the passages, each passage at most once per pass and
      every pass but the last complete, joined by single spaces, ending with the
      first passage that reaches the length. `passes` records the passage
      numbers appended in each pass. */
  method GetRandomPassage(passages: seq<string>, durationSeconds: Option<int>, random: nat -> Fraction)
    returns (text: string, ghost passes: seq<seq<nat>>)
    requires |passages| > 0 && AllNonEmpty(passages)
    ensures |text| >= MinChars(durationSeconds)
    ensures |text| < MinChars(durationSeconds) + 1 + Longest(passages)
    ensures Indices(passages, Concat(passes)) && text == Join(passages, Concat(passes))
    ensures passes != [] && WellFormedPasses(passes, |passages|)
  {
    var n := |passages|;
    var minChars := MinChars(durationSeconds);
    var indices := new nat[n](k => k);
    var draw: nat := 0;
    text := "";
    passes := [];
    while |text| < minChars
      invariant indices.Length == n && IsPermutation(indices[..], n)
      invariant Indices(passages, Concat(passes)) && text == Join(passages, Concat(passes))
      invariant |text| < minChars + 1 + Longest(passages)
      invariant passes == [] ==> text == ""
      invariant passes != [] && |text| < minChars ==> |passes[|passes| - 1]| == n
      invariant WellFormedPasses(passes, n)
      decreases minChars - |text|
    {
      ghost var before := indices[..];
      ghost var firstDraw := draw;
      draw := Shuffle(indices, random, draw);
      ShuffleDownKeepsPermutation(before, n, n - 1, random, firstDraw);
      var used;
      text, used := AppendPass(passages, indices, text, Concat(passes), minChars);
      ghost var pass := indices[..used];
      PrefixIsPass(indices[..], n, used);
      assert pass == indices[..][..used];
      AddPass(passes, pass, n);
      ConcatSnoc(passes, pass);
      passes := passes + [pass];
    }
  }
}
