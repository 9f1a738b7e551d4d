// The promise of folding white space, and how the loop that folds it goes through a text: runs that it takes out, runs
// that move under its position, and the bytes that it leaves behind the text.
module FoldSteps {
  import opened Bytes
  import opened StringCompare

  // ----- The full fold -----

  /** A byte of white space behind another one. */
  predicate Extra(s: seq<byte>, i: nat)
    requires i < |s|
  {
    i > 0 && IsSpace(s[i - 1]) && IsSpace(s[i])
  }

  /** What the comment of SLPFoldWhiteSpace promises: of every run of white space the first byte is left. */
  function FullFold(s: seq<byte>): (r: seq<byte>)
    ensures |r| <= |s| && (s != [] ==> r != [])
  {
    if s == [] then []
    else FullFold(s[..|s| - 1]) + if Extra(s, |s| - 1) then [] else [s[|s| - 1]]
  }

  predicate AnyExtra(s: seq<byte>) {
    exists i :: 0 <= i < |s| && Extra(s, i)
  }

  lemma {:induction false} FullFoldLast(s: seq<byte>)
    requires s != []
    ensures IsSpace(FullFold(s)[|FullFold(s)| - 1]) == IsSpace(s[|s| - 1])
  {
    var n := |s| - 1;
    if Extra(s, n) {
      FullFoldLast(s[..n]);
    }
  }

  /** The full fold leaves no run. */
  lemma {:induction false} FullFoldHasNone(s: seq<byte>)
    ensures !AnyExtra(FullFold(s))
  {
    if s != [] {
      var n := |s| - 1;
      var f, r := FullFold(s[..n]), FullFold(s);
      FullFoldHasNone(s[..n]);
      if n > 0 { FullFoldLast(s[..n]); }
      forall i | 0 <= i < |r| ensures !Extra(r, i) {
        if i < |f| {
          assert !Extra(f, i);
        } else if n > 0 {
          assert r[i - 1] == f[|f| - 1] && s[..n][n - 1] == s[n - 1];
        }
      }
    }
  }

  lemma {:induction false} FullFoldFixed(s: seq<byte>)
    requires !AnyExtra(s)
    ensures FullFold(s) == s
  {
    if s != [] {
      var t := s[..|s| - 1];
      forall i | 0 <= i < |t| ensures !Extra(t, i) { assert !Extra(s, i); }
      FullFoldFixed(t);
      assert !Extra(s, |s| - 1);
      assert t + [s[|s| - 1]] == s;
    }
  }

  /** How many bytes are not white space. */
  function Solid(s: seq<byte>): nat {
    if s == [] then 0 else Solid(s[..|s| - 1]) + if IsSpace(s[|s| - 1]) then 0 else 1
  }

  /** The full fold loses no byte that is not white space. */
  lemma {:induction false} FullFoldKeepsSolid(s: seq<byte>)
    ensures Solid(FullFold(s)) == Solid(s)
  {
    if s != [] {
      var n := |s| - 1;
      FullFoldKeepsSolid(s[..n]);
      var f, r := FullFold(s[..n]), FullFold(s);
      if !Extra(s, n) { assert r[..|r| - 1] == f; } else { assert r == f; }
    }
  }

  /** A proper prefix of a text that ends in something solid has less of it. */
  lemma {:induction false} SolidPrefix(s: seq<byte>, n: nat)
    requires n <= |s|
    ensures Solid(s[..n]) <= Solid(s)
    ensures n < |s| && !IsSpace(s[|s| - 1]) ==> Solid(s[..n]) < Solid(s)
  {
    if n == |s| {
      assert s[..n] == s;
    } else {
      SolidPrefix(s[..|s| - 1], n);
      assert s[..|s| - 1][..n] == s[..n];
    }
  }

  lemma WithoutLast(s: seq<byte>, p: nat, q: nat)
    requires p < q < |s|
    requires IsSpace(s[p]) && IsSpace(s[q - 1]) && !IsSpace(s[q])
    ensures var t, n := s[..p + 1] + s[q..], |s| - 1; var m := |t| - 1;
            t[..m] == s[..n][..p + 1] + s[..n][q..] && t[m] == s[n] && (Extra(t, m) <==> Extra(s, n))
  {
    var a, b, n := s[..p + 1], s[q..], |s| - 1;
    assert (a + b)[..|a| + (|b| - 1)] == a + b[..|b| - 1];
    assert s[..n][..p + 1] == a && s[..n][q..] == b[..|b| - 1];
    if q < n { assert (a + b)[|a + b| - 2] == s[n - 1]; }
  }

  lemma FullFoldStep(s: seq<byte>)
    requires s != []
    ensures var n := |s| - 1; FullFold(s) == FullFold(s[..n]) + if Extra(s, n) then [] else [s[n]]
  {
  }

  /** Taking out the rest of a run does not change the full fold. */
  lemma {:induction false} DropRun(s: seq<byte>, p: nat, q: nat)
    requires p < q <= |s| && (forall i :: p <= i < q ==> IsSpace(s[i])) && (q < |s| ==> !IsSpace(s[q]))
    ensures FullFold(s[..p + 1] + s[q..]) == FullFold(s)
    decreases |s|
  {
    hide FullFold;
    var n := |s| - 1;
    FullFoldStep(s);
    if q < |s| {
      DropRun(s[..n], p, q);
      WithoutLast(s, p, q);
      FullFoldStep(s[..p + 1] + s[q..]);
    } else if p + 1 < q {
      DropRun(s[..n], p, q - 1);
      RunAtEnd(s, p);
      assert FullFold(s[..n]) + [] == FullFold(s[..n]);
    } else {
      assert s[..p + 1] + s[q..] == s;
    }
  }

  lemma RunAtEnd(s: seq<byte>, p: nat)
    requires p + 1 < |s|
    ensures var n := |s| - 1; s[..n][..p + 1] + s[..n][n..] == s[..p + 1] + s[|s|..]
  {
  }

  // ----- When the loop folds in full -----

  /** A run of at least two bytes of white space in `p..q`, and behind it the extra byte of another one at `k`. */
  ghost predicate RunBefore(s: seq<byte>, p: nat, q: nat, k: nat) {
    p + 2 <= q < k < |s| && (forall i :: p <= i < q ==> IsSpace(s[i])) && !IsSpace(s[q]) && Extra(s, k)
  }

  /** Behind each run, there are at least as many bytes before the next run as the run is long. */
  ghost predicate Apart(s: seq<byte>) {
    forall p: nat, q: nat, k: nat :: RunBefore(s, p, q, k) ==> q - p <= k - 1 - q
  }

  /** From the last two bytes of a later run to the end, there are at least as many bytes as the run is long. */
  ghost predicate FarFromEnd(s: seq<byte>) {
    forall p: nat, q: nat, k: nat :: RunBefore(s, p, q, k) ==> q - p <= |s| - (k - 1)
  }

  /**
   * The buffer `s` of the loop at position `p`, when `len` bytes are left: an extra byte is still to come, or it
   * is behind the text and behind the scan.
   */
  ghost predicate OnCourse(s: seq<byte>, p: nat, len: nat) {
    && 0 < len <= |s| <= len + p && !IsSpace(s[len - 1]) && !IsSpace(s[|s| - 1])
    && (forall k :: 0 <= k < |s| && Extra(s, k) ==> p < k < len || len < k <= p)
    && Apart(s[..len]) && FarFromEnd(s[..len])
  }

  lemma SkipsRun(s: seq<byte>, p: nat)
    requires p <= |s|
    ensures var q := SkipSpaces(s, p);
            (forall i :: p <= i < q ==> IsSpace(s[i])) && (q < |s| ==> !IsSpace(s[q]))
    decreases |s| - p
  {
    if p < |s| && IsSpace(s[p]) { SkipsRun(s, p + 1); }
  }

  /** The loop's move, byte by byte: what is behind the run comes forward, and the last `d` bytes stay. */
  lemma ShiftedAt(s: seq<byte>, p: nat, q: nat, k: nat)
    requires p < q <= |s| && k < |s|
    ensures var d := q - (p + 1); Shifted(s, p + 1, q)[k] == if k <= p || k >= |s| - d then s[k] else s[k + d]
  {
  }

  /** Any run that is still to come is a run of the buffer before the move. */
  lemma RunMoves(s: seq<byte>, p: nat, q: nat, len: nat, p1: nat, q1: nat, k: nat)
    requires OnCourse(s, p, len) && p < q < len && (forall i :: p <= i < q ==> IsSpace(s[i])) && !IsSpace(s[q])
    requires var d := q - (p + 1); RunBefore(Shifted(s, p + 1, q)[..len - d], p1, q1, k)
    ensures var d := q - (p + 1); RunBefore(s[..len], p1 + d, q1 + d, k + d)
  {
    hide Shifted, Apart, FarFromEnd;
    var d, t := q - (p + 1), Shifted(s, p + 1, q);
    var live := t[..len - d];
    assert IsSpace(live[p1]) && IsSpace(live[p1 + 1]);
    ShiftedAt(s, p, q, p1);
    ShiftedAt(s, p, q, p1 + 1);
    if p1 <= p { NoneBehind(s, p, len, p1 + 1); }
    forall i | p1 <= i <= k ensures live[i] == s[i + d] { ShiftedAt(s, p, q, i); }
    forall i | p1 + d <= i < q1 + d ensures IsSpace(s[..len][i]) { assert live[i - d] == s[i]; }
  }

  lemma NoneBehind(s: seq<byte>, p: nat, len: nat, k: nat)
    requires OnCourse(s, p, len) && k <= p && k < len
    ensures !Extra(s, k)
  {
  }

  /** One turn of the loop at a run keeps the course. */
  lemma MoveKeepsCourse(s: seq<byte>, p: nat, q: nat, len: nat)
    requires OnCourse(s, p, len) && p < q < len && (forall i :: p <= i < q ==> IsSpace(s[i])) && !IsSpace(s[q])
    ensures var d := q - (p + 1); OnCourse(Shifted(s, p + 1, q), q + 1, len - d)
  {
    hide Shifted, Apart, FarFromEnd;
    var d, t := q - (p + 1), Shifted(s, p + 1, q);
    forall k | 0 <= k < |t| && Extra(t, k) ensures q + 1 < k < len - d || len - d < k <= q + 1 {
      MovedExtra(s, p, q, len, k);
    }
    CourseAhead(s, p, q, len);
    ShiftedAt(s, p, q, |s| - 1);
    ShiftedAt(s, p, q, len - d - 1);
  }

  lemma ExtraAhead(s: seq<byte>, p: nat, q: nat, len: nat, k: nat)
    requires OnCourse(s, p, len) && p + 1 < q < len && (forall i :: p <= i < q ==> IsSpace(s[i])) && !IsSpace(s[q])
    requires q < k < |s| && Extra(s, k)
    ensures k < len && q - p <= k - 1 - q && q - p <= len - (k - 1)
  {
    assert RunBefore(s[..len], p, q, k);
  }

  lemma MovedExtra(s: seq<byte>, p: nat, q: nat, len: nat, k: nat)
    requires OnCourse(s, p, len) && p < q < len && (forall i :: p <= i < q ==> IsSpace(s[i])) && !IsSpace(s[q])
    requires k < |s| && Extra(Shifted(s, p + 1, q), k)
    ensures var d := q - (p + 1); q + 1 < k < len - d || len - d < k <= q + 1
  {
    hide Shifted;
    var d, t := q - (p + 1), Shifted(s, p + 1, q);
    ShiftedAt(s, p, q, k);
    ShiftedAt(s, p, q, k - 1);
    if k > p + 1 && k < |s| - d {
      assert Extra(s, k + d);
      if d > 0 { ExtraAhead(s, p, q, len, k + d); }
    } else if d > 0 && k > |s| - d {
      assert Extra(s, k);
      if k > q { ExtraAhead(s, p, q, len, k); }
    } else if k <= p {
      NoneBehind(s, p, len, k);
    }
  }

  lemma CourseAhead(s: seq<byte>, p: nat, q: nat, len: nat)
    requires OnCourse(s, p, len) && p < q < len && (forall i :: p <= i < q ==> IsSpace(s[i])) && !IsSpace(s[q])
    ensures var live := Shifted(s, p + 1, q)[..len - (q - (p + 1))]; Apart(live) && FarFromEnd(live)
  {
    hide Shifted;
    var d := q - (p + 1);
    var live := Shifted(s, p + 1, q)[..len - d];
    forall p1: nat, q1: nat, k: nat | RunBefore(live, p1, q1, k)
      ensures q1 - p1 <= k - 1 - q1 && q1 - p1 <= |live| - (k - 1)
    {
      RunMoves(s, p, q, len, p1, q1, k);
      assert RunBefore(s[..len], p1 + d, q1 + d, k + d);
    }
  }

  /** The text that is left after the move, and one turn of the loop. */
  lemma FoldStep(s: seq<byte>, p: nat, q: nat, len: nat)
    requires p < q <= |s| && q == SkipSpaces(s, p + 1) && IsSpace(s[p]) && len <= |s| <= len + p && len > 0
    ensures var d := q - (p + 1); FoldFrom(s, p, len) == FoldFrom(Shifted(s, p + 1, q), q + 1, len - d)
    ensures var d := q - (p + 1); q < len ==> Shifted(s, p + 1, q)[..len - d] == s[..len][..p + 1] + s[..len][q..]
  {
    if q < len { ShiftedText(s, p, q, len); }
  }

  lemma ShiftedText(s: seq<byte>, p: nat, q: nat, len: nat)
    requires p < q < len <= |s|
    ensures Shifted(s, p + 1, q)[..len - (q - (p + 1))] == s[..len][..p + 1] + s[..len][q..]
  {
    var a, b, c := s[..p + 1], s[q..len], s[len..] + s[|s| - (q - (p + 1))..];
    assert s[q..] == b + s[len..];
    assert Shifted(s, p + 1, q) == a + b + c;
    assert s[..len][..p + 1] == a && s[..len][q..] == b;
    assert (a + b + c)[..|a + b|] == a + b;
  }

  lemma FoldEnd(s: seq<byte>, p: nat, len: nat)
    requires |s| <= p && len <= |s| <= len + p && (p > 0 ==> len > 0)
    ensures FoldFrom(s, p, len) == s[..len]
  {
  }

  /** Whether the loop folds in full depends on what is left after the turn. */
  lemma RunStep(s: seq<byte>, p: nat, q: nat, len: nat)
    requires p < q < len <= |s| <= len + p && q == SkipSpaces(s, p + 1) && IsSpace(s[p])
    ensures (forall i :: p <= i < q ==> IsSpace(s[i])) && !IsSpace(s[q])
    ensures var t, rest := Shifted(s, p + 1, q), len - (q - (p + 1));
            && 0 < rest <= |t| == |s| <= rest + (q + 1) && t[rest - 1] == s[len - 1]
            && (FoldFrom(s, p, len) == FullFold(s[..len]) <==> FoldFrom(t, q + 1, rest) == FullFold(t[..rest]))
  {
    hide FoldFrom, FullFold, Shifted;
    SkipsRun(s, p + 1);
    FoldStep(s, p, q, len);
    DropRun(s[..len], p, q);
    ShiftedAt(s, p, q, len - (q - (p + 1)) - 1);
  }

  /** The run at the scan position ends before the text does. */
  lemma RunEnds(s: seq<byte>, p: nat, len: nat)
    requires p < len <= |s| && !IsSpace(s[len - 1]) && IsSpace(s[p])
    ensures p < SkipSpaces(s, p + 1) < len
  {
    SkipsRun(s, p + 1);
  }

  lemma PassSolid(s: seq<byte>, p: nat, len: nat)
    requires OnCourse(s, p, len) && p < |s| && !IsSpace(s[p])
    ensures OnCourse(s, p + 1, len) && FoldFrom(s, p, len) == FoldFrom(s, p + 1, len)
  {
    hide Apart, FarFromEnd;
  }

  /** White space among the bytes behind the text stands alone, and stays. */
  lemma PassOld(s: seq<byte>, p: nat, len: nat)
    requires OnCourse(s, p, len) && len <= p < |s| && IsSpace(s[p])
    ensures OnCourse(s, p + 2, len) && FoldFrom(s, p, len) == FoldFrom(s, p + 2, len)
  {
    hide Apart, FarFromEnd;
    assert p + 1 < |s| && !Extra(s, p + 1);
    assert SkipSpaces(s, p + 1) == p + 1 && Shifted(s, p + 1, p + 1) == s;
  }

  lemma {:induction false} CourseFolds(s: seq<byte>, p: nat, len: nat)
    requires OnCourse(s, p, len)
    ensures FoldFrom(s, p, len) == FullFold(s[..len])
    decreases |s| - p
  {
    hide Shifted, Apart, FarFromEnd, SkipSpaces, FullFold, FoldFrom;
    if p >= |s| {
      FoldEnd(s, p, len);
      forall i | 0 <= i < len ensures !Extra(s[..len], i) { NoneBehind(s, p, len, i); }
      FullFoldFixed(s[..len]);
    } else if !IsSpace(s[p]) {
      PassSolid(s, p, len);
      CourseFolds(s, p + 1, len);
    } else if p >= len {
      PassOld(s, p, len);
      CourseFolds(s, p + 2, len);
    } else {
      var q := SkipSpaces(s, p + 1);
      RunEnds(s, p, len);
      RunStep(s, p, q, len);
      MoveKeepsCourse(s, p, q, len);
      CourseFolds(Shifted(s, p + 1, q), q + 1, len - (q - (p + 1)));
    }
  }

  lemma {:induction false} NoRunStays(s: seq<byte>, p: nat)
    requires !AnyExtra(s) && (p > 0 ==> s != [])
    ensures FoldFrom(s, p, |s|) == s
    decreases |s| - p
  {
    if p < |s| {
      if IsSpace(s[p]) {
        assert p + 1 < |s| ==> !Extra(s, p + 1);
        assert SkipSpaces(s, p + 1) == p + 1 && Shifted(s, p + 1, p + 1) == s;
        NoRunStays(s, p + 2);
      } else {
        NoRunStays(s, p + 1);
      }
    }
  }

  // ----- When it does not -----

  /** What the scan has passed stays. */
  lemma {:induction false} PassedStays(s: seq<byte>, p: nat, len: nat)
    requires len <= |s| <= len + p && (p > 0 ==> len > 0)
    ensures var r := FoldFrom(s, p, len);
            |r| <= len && forall i :: 0 <= i < |r| && i <= p ==> r[i] == s[i]
    decreases |s| - p
  {
    hide Shifted, SkipSpaces;
    if p < |s| {
      if IsSpace(s[p]) {
        var q := SkipSpaces(s, p + 1);
        PassedStays(Shifted(s, p + 1, q), q + 1, len - (q - (p + 1)));
        forall i | 0 <= i <= p ensures Shifted(s, p + 1, q)[i] == s[i] { ShiftedAt(s, p, q, i); }
      } else {
        PassedStays(s, p + 1, len);
      }
    }
  }

  /** A run that the scan has passed is not folded any more, unless the text is cut. */
  lemma PassedRun(s: seq<byte>, p: nat, len: nat, k: nat)
    requires 0 < len <= |s| <= len + p && k <= p && k < len && Extra(s, k) && !IsSpace(s[len - 1])
    ensures FoldFrom(s, p, len) != FullFold(s[..len])
  {
    hide FoldFrom, FullFold;
    var r, text := FoldFrom(s, p, len), s[..len];
    PassedStays(s, p, len);
    if k < |r| {
      assert Extra(r, k);
      FullFoldHasNone(text);
    } else {
      assert r == text[..|r|];
      FullFoldKeepsSolid(text);
      SolidPrefix(text, |r|);
    }
  }

  /** A run and, too soon behind it, another one. */
  ghost predicate TooClose(s: seq<byte>, p: nat, q: nat, k: nat) {
    RunBefore(s, p, q, k) && q - p > k - 1 - q
  }

  lemma {:induction false} CloseRunStays(s: seq<byte>, p: nat, len: nat, p1: nat, q1: nat, k: nat)
    requires 0 < len <= |s| <= len + p && !IsSpace(s[len - 1]) && p <= p1 && TooClose(s[..len], p1, q1, k)
    ensures FoldFrom(s, p, len) != FullFold(s[..len])
    decreases |s| - p
  {
    hide Shifted, FoldFrom, FullFold, SkipSpaces, TooClose;
    CloseIn(s, len, p1, q1, k);
    if !IsSpace(s[p]) {
      SolidStep(s, p, len);
      CloseRunStays(s, p + 1, len, p1, q1, k);
    } else {
      var q := SkipSpaces(s, p + 1);
      RunEnds(s, p, len);
      RunStep(s, p, q, len);
      var d, t := q - (p + 1), Shifted(s, p + 1, q);
      if q > p1 {
        CloseFirst(s, p, q, len, p1, q1, k);
        PassedRun(t, q + 1, len - d, k - d);
      } else if p1 - d < q + 1 {
        CloseLater(s, p, q, len, p1, q1, k);
        PassedRun(t, q + 1, len - d, p1 - d + 1);
      } else {
        CloseLater(s, p, q, len, p1, q1, k);
        CloseRunStays(t, q + 1, len - d, p1 - d, q1 - d, k - d);
      }
    }
  }

  lemma CloseIn(s: seq<byte>, len: nat, p1: nat, q1: nat, k: nat)
    requires len <= |s| && TooClose(s[..len], p1, q1, k)
    ensures p1 + 2 <= q1 < k < len && (forall i :: p1 <= i < q1 ==> IsSpace(s[i])) && !IsSpace(s[q1])
  {
    forall i | p1 <= i < q1 ensures IsSpace(s[i]) { assert s[..len][i] == s[i]; }
  }

  /** The run at the scan position is the first of the two: the second comes forward, and the scan passes it. */
  lemma CloseFirst(s: seq<byte>, p: nat, q: nat, len: nat, p1: nat, q1: nat, k: nat)
    requires p <= p1 < q < len <= |s| && (forall i :: p <= i < q ==> IsSpace(s[i])) && !IsSpace(s[q])
    requires TooClose(s[..len], p1, q1, k)
    ensures var d := q - (p + 1); 0 < k - d <= q + 1 && k < len && Extra(Shifted(s, p + 1, q), k - d)
  {
    hide Shifted;
    CloseIn(s, len, p1, q1, k);
    assert q == q1;
    var d := q - (p + 1);
    ShiftedAt(s, p, q, k - d);
    ShiftedAt(s, p, q, k - d - 1);
  }

  /** Both runs are still to come: they come forward together. */
  lemma CloseLater(s: seq<byte>, p: nat, q: nat, len: nat, p1: nat, q1: nat, k: nat)
    requires p < q <= p1 && q < len <= |s| && !IsSpace(s[q]) && TooClose(s[..len], p1, q1, k)
    ensures var d := q - (p + 1); var t := Shifted(s, p + 1, q);
            d < p1 && TooClose(t[..len - d], p1 - d, q1 - d, k - d) && Extra(t, p1 - d + 1)
  {
    hide Shifted;
    CloseIn(s, len, p1, q1, k);
    var d, t := q - (p + 1), Shifted(s, p + 1, q);
    forall i | p1 - d <= i <= k - d ensures t[i] == s[i + d] { ShiftedAt(s, p, q, i); }
  }

  lemma SolidStep(s: seq<byte>, p: nat, len: nat)
    requires p < |s| && !IsSpace(s[p]) && 0 < len <= |s| <= len + p
    ensures FoldFrom(s, p, len) == FoldFrom(s, p + 1, len)
  {
  }

  lemma FirstTurn(x: byte)
    requires !IsSpace(x)
    ensures FoldFrom([97, 32, 32, 32, 32, 98, 32, 32, x], 0, 9) == FoldFrom([97, 32, 98, 32, 32, x, 32, 32, x], 6, 6)
  {
    hide Shifted;
    var s: seq<byte> := [97, 32, 32, 32, 32, 98, 32, 32, x];
    assert SkipSpaces(s, 5) == 5 && SkipSpaces(s, 3) == 5 && SkipSpaces(s, 2) == 5;
    assert Shifted(s, 2, 5) == [97, 32, 98, 32, 32, x, 32, 32, x] by {
      assert s[..2] == [97, 32] && s[5..] == [98, 32, 32, x] && s[6..] == [32, 32, x];
      ShiftedIs(s, 2, 5);
    }
    assert FoldFrom(s, 0, 9) == FoldFrom(s, 1, 9);
  }

  lemma SecondTurn(x: byte)
    requires !IsSpace(x)
    ensures FoldFrom([97, 32, 98, 32, 32, x, 32, 32, x], 6, 6) == [97, 32, 98, 32, 32]
  {
    hide Shifted;
    var t: seq<byte> := [97, 32, 98, 32, 32, x, 32, 32, x];
    var u: seq<byte> := [97, 32, 98, 32, 32, x, 32, x, x];
    assert SkipSpaces(t, 8) == 8 && SkipSpaces(t, 7) == 8;
    assert Shifted(t, 7, 8) == u by {
      assert t[..7] == [97, 32, 98, 32, 32, x, 32] && t[8..] == [x];
      ShiftedIs(t, 7, 8);
    }
    assert FoldFrom(t, 6, 6) == FoldFrom(u, 9, 5) == u[..5];
  }

  lemma ShiftedIs(s: seq<byte>, w: nat, q: nat)
    requires w <= q <= |s|
    ensures Shifted(s, w, q) == s[..w] + s[q..] + s[w + |s| - q..]
  {
  }
}
