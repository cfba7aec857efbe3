/** The search for the firmware flag (mupgrade_check.c): kmp_next computes the border function
    of the flag, and kmp_find is exact up to the last target_size - 1 bytes of the partition,
    which its loop never looks at. */
module KmpSearch {
  import opened Prelude

  // ---------- borders ----------

  /** s has a proper prefix of length k that is also its suffix. */
  ghost predicate Border(s: seq<Byte>, k: nat) {
    k < |s| && s[..k] == s[|s| - k..]
  }

  ghost predicate LongestBorder(s: seq<Byte>, k: nat) {
    Border(s, k) && forall j: nat | Border(s, j) :: j <= k
  }

  /** x ends with the first k bytes of t. */
  ghost predicate EndsWith(x: seq<Byte>, t: seq<Byte>, k: nat) {
    k <= |t| && k <= |x| && t[..k] == x[|x| - k..]
  }

  /** One more byte: x + [b] ends with k + 1 bytes of t iff x ends with k and the next fits. */
  lemma EndsWithSnoc(x: seq<Byte>, b: Byte, t: seq<Byte>, k: nat)
    requires k < |t|
    ensures EndsWith(x + [b], t, k + 1) <==> EndsWith(x, t, k) && t[k] == b
  {
    if k <= |x| {
      var y := x + [b];
      assert t[..k + 1] == t[..k] + [t[k]];
      assert y[|y| - (k + 1)..] == x[|x| - k..] + [b];
      if EndsWith(y, t, k + 1) {
        assert t[k] == t[..k + 1][k] == y[|y| - (k + 1)..][k] == b;
        assert t[..k] == t[..k + 1][..k] == y[|y| - (k + 1)..][..k] == x[|x| - k..];
      }
    }
  }

  /** If x ends with j bytes of t, then the shorter matches of x are exactly the borders of
      those j bytes. */
  lemma ShorterMatches(x: seq<Byte>, t: seq<Byte>, j: nat, k: nat)
    requires EndsWith(x, t, j) && k < j
    ensures EndsWith(x, t, k) <==> Border(t[..j], k)
  {
    var p := t[..j];
    assert p[..k] == t[..k];
    assert p[j - k..] == x[|x| - j..][j - k..] == x[|x| - k..];
  }

  /** A border of t[..i + 1] is a match of t[1..i + 1]. */
  lemma BorderIsMatch(t: seq<Byte>, i: nat, k: nat)
    requires i < |t|
    ensures Border(t[..i + 1], k) <==> EndsWith(t[1..i + 1], t, k)
  {
    if k <= i {
      assert t[..i + 1][..k] == t[..k];
      assert t[..i + 1][i + 1 - k..] == t[1..i + 1][i - k..];
    }
  }

  // ---------- one byte further ----------

  /** q is the longest match of x with a prefix of t shorter than `limit`. */
  ghost predicate LongestMatch(x: seq<Byte>, t: seq<Byte>, limit: nat, q: nat) {
    EndsWith(x, t, q) && q < limit && forall k: nat | EndsWith(x, t, k) && k < limit :: k <= q
  }

  /** During the inner loop: q is a match, and no longer one can be extended by b. */
  ghost predicate Candidate(x: seq<Byte>, t: seq<Byte>, b: Byte, limit: nat, q: nat)
    requires limit <= |t|
  {
    EndsWith(x, t, q) && q < limit && forall k: nat | EndsWith(x, t, k) && k < limit && t[k] == b :: k <= q
  }

  /** The step q := next[q - 1] after a mismatch. */
  lemma FallBack(x: seq<Byte>, t: seq<Byte>, b: Byte, limit: nat, q: nat, f: nat)
    requires limit <= |t| && Candidate(x, t, b, limit, q) && 0 < q && t[q] != b && LongestBorder(t[..q], f)
    ensures f < q && Candidate(x, t, b, limit, f)
  {
    ShorterMatches(x, t, q, f);
    forall k: nat | EndsWith(x, t, k) && k < limit && t[k] == b ensures k <= f {
      ShorterMatches(x, t, q, k);
    }
  }

  /** The end of the inner loop: the longest match of x + [b]. */
  lemma Advance(x: seq<Byte>, t: seq<Byte>, b: Byte, limit: nat, q: nat) returns (q': nat)
    requires limit <= |t| && Candidate(x, t, b, limit, q) && (q == 0 || t[q] == b)
    ensures q' == (if t[q] == b then q + 1 else q)
    ensures LongestMatch(x + [b], t, limit + 1, q')
  {
    q' := if t[q] == b then q + 1 else q;
    EndsWithSnoc(x, b, t, q);
    forall k: nat | EndsWith(x + [b], t, k) && k < limit + 1 ensures k <= q' {
      if k > 0 {
        EndsWithSnoc(x, b, t, k - 1);
      }
    }
  }

  // ---------- kmp_next ----------

  /** v is the entry for index i: the longest border of t[0..i]. */
  ghost predicate NextOk(t: seq<Byte>, i: nat, v: nat) {
    i < |t| && LongestBorder(t[..i + 1], v)
  }

  ghost predicate IsNext(t: seq<Byte>, next: seq<nat>, size: nat)
    requires size <= |t|
  {
    size <= |next| && forall i | 0 <= i < size :: NextOk(t, i, next[i])
  }

  /** The inner loop of both functions: the match is shortened until the next byte fits. */
  method Shorten(t: seq<Byte>, next: array<nat>, ghost x: seq<Byte>, b: Byte, limit: nat, start: nat)
      returns (q: nat, ghost steps: nat)
    requires limit <= |t| && Candidate(x, t, b, limit, start)
    requires start <= next.Length && forall i | 0 <= i < start :: NextOk(t, i, next[i])
    ensures Candidate(x, t, b, limit, q) && (q == 0 || t[q] == b)
    ensures steps + q <= start
  {
    q, steps := start, 0;
    while q != 0 && t[q] != b
      invariant Candidate(x, t, b, limit, q)
      invariant steps + q <= start
      decreases q
    {
      assert NextOk(t, q - 1, next[q - 1]);
      FallBack(x, t, b, limit, q, next[q - 1]);
      q := next[q - 1];
      steps := steps + 1;
    }
  }

  /** kmp_next: the border function of the target. `steps` counts the turns of both loops.
      Every entry is at most its index, so that a uint8_t holds it for up to 256 bytes. */
  method KmpNext(target: seq<Byte>, next: array<nat>) returns (ghost steps: nat)
    requires 0 < |target| <= next.Length
    modifies next
    ensures IsNext(target, next[..], |target|)
    ensures forall i | 0 <= i < |target| :: next[i] <= i
    ensures steps <= 2 * |target|
  {
    next[0] := 0;
    steps := 0;
    assert NextOk(target, 0, 0);
    var j: nat := 0;
    for i := 1 to |target|
      invariant forall k | 0 <= k < i :: NextOk(target, k, next[k]) && next[k] <= k
      invariant j < i && NextOk(target, i - 1, j)
      invariant steps + j <= 2 * i
    {
      EnterNext(target, i, j);
      ghost var turns: nat;
      j, turns := Shorten(target, next, target[1..i], target[i], i, j);
      ghost var q := Advance(target[1..i], target, target[i], i, j);
      if target[j] == target[i] {
        j := j + 1;
      }
      LeaveNext(target, i, j);
      next[i] := j;
      steps := steps + turns + 1;
    }
  }

  lemma EnterNext(t: seq<Byte>, i: nat, j: nat)
    requires 0 < i < |t| && LongestBorder(t[..i], j)
    ensures j < i && Candidate(t[1..i], t, t[i], i, j)
  {
    forall k: nat ensures Border(t[..i], k) <==> EndsWith(t[1..i], t, k) {
      BorderIsMatch(t, i - 1, k);
    }
  }

  lemma LeaveNext(t: seq<Byte>, i: nat, j: nat)
    requires 0 < i < |t| && LongestMatch(t[1..i] + [t[i]], t, i + 1, j)
    ensures LongestBorder(t[..i + 1], j) && j <= i
  {
    assert t[1..i] + [t[i]] == t[1..i + 1];
    var p, x := t[..i + 1], t[1..i + 1];
    forall k: nat ensures Border(p, k) <==> EndsWith(x, t, k) {
      BorderIsMatch(t, i, k);
    }
  }

  // ---------- kmp_find ----------

  ghost predicate OccursEnding(src: seq<Byte>, t: seq<Byte>, e: nat) {
    e < |src| && |t| <= e + 1 && src[e + 1 - |t|..e + 1] == t
  }

  ghost predicate Occurs(src: seq<Byte>, t: seq<Byte>) {
    exists e: nat :: OccursEnding(src, t, e)
  }

  /** The occurrences that kmp_find can see. */
  ghost predicate OccursEarly(src: seq<Byte>, t: seq<Byte>) {
    exists e: nat :: OccursEnding(src, t, e) && e <= |src| - |t|
  }

  lemma FullMatchIsOccurrence(src: seq<Byte>, t: seq<Byte>, i: nat)
    requires 0 < |t| && i < |src|
    ensures EndsWith(src[..i + 1], t, |t|) <==> OccursEnding(src, t, i)
  {
    if |t| <= i + 1 {
      assert src[..i + 1][i + 1 - |t|..] == src[i + 1 - |t|..i + 1];
      assert t[..|t|] == t;
    }
  }

  /** kmp_find: MDF_OK (true) iff the target occurs with its last byte at an index of at most
      src_size - target_size. */
  method KmpFind(src: seq<Byte>, target: seq<Byte>, next: array<nat>) returns (found: bool, ghost steps: nat)
    requires 0 < |target| <= next.Length && IsNext(target, next[..], |target|)
    ensures found <==> OccursEarly(src, target)
    ensures steps <= 2 * |src|
  {
    var q: nat, i: nat := 0, 0;
    steps := 0;
    NextEntries(target, next[..]);
    while i <= |src| - |target|
      invariant i == 0 || i <= |src| - |target| + 1
      invariant Searching(src, target, i, q)
      invariant steps + q <= 2 * i
      decreases |src| - i
    {
      ghost var turns: nat;
      SearchByte(src, target, i, q);
      q, turns := Shorten(target, next, src[..i], src[i], |target|, q);
      SearchNext(src, target, i, q);
      steps := steps + turns + 1;
      if src[i] == target[q] {
        q := q + 1;
        if q == |target| {
          return true, steps;
        }
      }
      i := i + 1;
    }
    SearchEnd(src, target, i, q);
    return false, steps;
  }

  lemma NextEntries(t: seq<Byte>, next: seq<nat>)
    requires IsNext(t, next, |t|)
    ensures forall i | 0 <= i < |t| :: NextOk(t, i, next[i])
  {
  }

  /** Before byte i: nothing found so far, and q bytes of the target match. */
  ghost predicate Searching(src: seq<Byte>, t: seq<Byte>, i: nat, q: nat) {
    && i <= |src| && LongestMatch(src[..i], t, |t|, q)
    && forall e: nat | e < i :: !OccursEnding(src, t, e)
  }

  lemma SearchByte(src: seq<Byte>, t: seq<Byte>, i: nat, q: nat)
    requires Searching(src, t, i, q) && i < |src|
    ensures Candidate(src[..i], t, src[i], |t|, q) && q < |t|
  {
  }

  /** After byte i: the target ends there, or the search goes on. */
  lemma SearchNext(src: seq<Byte>, t: seq<Byte>, i: nat, q: nat)
    requires i < |src| && Candidate(src[..i], t, src[i], |t|, q) && (q == 0 || t[q] == src[i])
    requires forall e: nat | e < i :: !OccursEnding(src, t, e)
    ensures var q' := if t[q] == src[i] then q + 1 else q;
            if q' == |t| then OccursEnding(src, t, i) else Searching(src, t, i + 1, q')
  {
    var q' := Advance(src[..i], t, src[i], |t|, q);
    assert src[..i] + [src[i]] == src[..i + 1];
    FullMatchIsOccurrence(src, t, i);
  }

  lemma SearchEnd(src: seq<Byte>, t: seq<Byte>, i: nat, q: nat)
    requires Searching(src, t, i, q) && i > |src| - |t|
    ensures !OccursEarly(src, t)
  {
  }

  // ---------- what the loop bound costs ----------

  lemma Occurrence(src: seq<Byte>, t: seq<Byte>, before: seq<Byte>)
    requires src == before + t && 0 < |t|
    ensures OccursEnding(src, t, |src| - 1)
  {
    assert src[|src| - |t|..|src|] == t;
  }

  /** A source of n bytes whose only occurrence is the one at its very end. */
  lemma MissedOccurrence(t: seq<Byte>, n: nat) returns (src: seq<Byte>)
    requires 1 < |t| <= n
    ensures |src| == n && Occurs(src, t) && !OccursEarly(src, t)
  {
    var filler: Byte := if t[0] == 0 then 1 else 0;
    var before := seq(n - |t|, _ => filler);
    src := before + t;
    Occurrence(src, t, before);
    forall e: nat | e <= n - |t| ensures !OccursEnding(src, t, e) {
      if |t| <= e + 1 {
        assert src[e + 1 - |t|..e + 1][0] == filler;
      }
    }
  }

  /** For partitions of n bytes the search is exact if and only if the target is a single byte
      or does not fit. Otherwise some partition that contains the flag is rejected. */
  lemma SearchExactIff(t: seq<Byte>, n: nat)
    requires 0 < |t|
    ensures (forall src: seq<Byte> | |src| == n :: OccursEarly(src, t) <==> Occurs(src, t)) <==> |t| == 1 || n < |t|
  {
    if |t| == 1 || n < |t| {
      forall src: seq<Byte> | |src| == n && Occurs(src, t) ensures OccursEarly(src, t) {
        var e: nat :| OccursEnding(src, t, e);
        assert e <= |src| - |t|;
      }
    } else {
      var src := MissedOccurrence(t, n);
    }
  }

  /** Whatever is found is really there, and nothing is missed that ends early enough: in
      particular every occurrence that starts at most src_size - 2 * target_size + 1 bytes in. */
  lemma EarlyStartsAreFound(src: seq<Byte>, t: seq<Byte>, start: nat)
    requires 0 < |t| && start + 2 * |t| <= |src| + 1 && src[start..start + |t|] == t
    ensures OccursEarly(src, t)
  {
    assert OccursEnding(src, t, start + |t| - 1);
  }
}
