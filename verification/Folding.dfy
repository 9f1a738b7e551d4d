// What folding white space and comparing strings mean, and when.
module Folding {
  import opened Bytes
  import opened StringCompare
  import opened FoldSteps

  // ----- When the loop folds in full -----

  /**
   * No run of white space, or a solid end, and runs that are far enough from each other and from the end. A text
   * with a single run and a solid end is such a text.
   */
  ghost predicate Foldable(s: seq<byte>) {
    !AnyExtra(s) || (!IsSpace(s[|s| - 1]) && Apart(s) && FarFromEnd(s))
  }

  /** Main result: of a foldable text the loop leaves what its comment promises. */
  lemma FoldableFolds(s: seq<byte>)
    requires Foldable(s)
    ensures Folded(s) == FullFold(s)
  {
    hide Apart, FarFromEnd, FoldFrom, FullFold;
    if AnyExtra(s) {
      assert s[..|s|] == s;
      CourseFolds(s, 0, |s|);
    } else {
      NoRunStays(s, 0);
      FullFoldFixed(s);
    }
  }

  // ----- When it does not -----

  /** Main result: a run that comes too soon behind another one is not folded right, or the end of the text is lost. */
  lemma ApartNeeded(s: seq<byte>)
    requires s != [] && !IsSpace(s[|s| - 1]) && Folded(s) == FullFold(s)
    ensures Apart(s)
  {
    hide FoldFrom, FullFold;
    assert s[..|s|] == s;
    forall p: nat, q: nat, k: nat | RunBefore(s, p, q, k) ensures q - p <= k - 1 - q {
      if TooClose(s, p, q, k) { CloseRunStays(s, 0, |s|, p, q, k); }
    }
  }

  /** With runs far from the end, the loop folds in full if and only if they are far from each other. */
  lemma FoldsIff(s: seq<byte>)
    requires s != [] && !IsSpace(s[|s| - 1]) && FarFromEnd(s)
    ensures Folded(s) == FullFold(s) <==> Apart(s)
  {
    hide Apart, FarFromEnd, Folded, FullFold;
    if Apart(s) { FoldableFolds(s); }
    if Folded(s) == FullFold(s) { ApartNeeded(s); }
  }

  /** A failing input: of "a    b  x" the loop leaves "a b  ", so that the last byte is lost. */
  lemma FoldLosesText(x: byte)
    requires !IsSpace(x)
    ensures Folded([97, 32, 32, 32, 32, 98, 32, 32, x]) == [97, 32, 98, 32, 32]
  {
    hide FoldFrom;
    FirstTurn(x);
    SecondTurn(x);
  }

  // ----- What the comparison means -----

  /** The text that SLPCompareString is promised to compare, apart from case. */
  function Plain(s: seq<byte>): (r: seq<byte>)
    ensures r == [] <==> Trimmed(s) == []
  {
    FullFold(Unescaped(Trimmed(s)))
  }

  ghost predicate Ordinary(s: seq<byte>) {
    var u := Unescaped(Trimmed(s));
    Foldable(u) && forall i :: 0 <= i < |u| ==> u[i] != 0
  }

  lemma CanonIs(s: seq<byte>)
    requires Ordinary(s)
    ensures CanonOf(s) == Canon(|Plain(s)|, Lower(Plain(s)))
  {
    hide Foldable, Folded, FullFold, Unescaped, Trimmed;
    var u := Unescaped(Trimmed(s));
    FoldableFolds(u);
    NoNulInFold(u);
    UptoNulAll(Plain(s));
    EmptyStays();
  }

  lemma EmptyStays()
    ensures Unescaped([]) == [] && FullFold([]) == [] && Lower([]) == []
  {
  }

  lemma {:induction false} NoNulInFold(s: seq<byte>)
    requires forall i :: 0 <= i < |s| ==> s[i] != 0
    ensures forall i :: 0 <= i < |FullFold(s)| ==> FullFold(s)[i] != 0
  {
    if s != [] { NoNulInFold(s[..|s| - 1]); }
  }

  lemma {:induction false} UptoNulAll(s: seq<byte>)
    requires forall i :: 0 <= i < |s| ==> s[i] != 0
    ensures UptoNul(s) == s
  {
    if s != [] { UptoNulAll(s[1..]); }
  }

  /**
   * Main result: for ordinary strings the comparison says what it promises, that trimmed, unescaped and fully
   * folded the two are equal up to case.
   */
  lemma SameMeans(a: seq<byte>, b: seq<byte>)
    requires Ordinary(a) && Ordinary(b)
    ensures Same(a, b) <==> Lower(Plain(a)) == Lower(Plain(b))
  {
    hide CanonOf, Plain, Ordinary;
    CanonIs(a);
    CanonIs(b);
  }

  /** Of a text without runs and escapes only the ends are trimmed. */
  lemma PlainIs(s: seq<byte>)
    requires var t := Trimmed(s); !AnyExtra(t) && forall i :: 0 <= i < |t| ==> t[i] != BACKSLASH && t[i] != 0
    ensures Ordinary(s) && Plain(s) == Trimmed(s)
  {
    hide Trimmed, AnyExtra, FullFold;
    NothingEscaped(Trimmed(s));
    FullFoldFixed(Trimmed(s));
  }

  lemma {:induction false} NothingEscaped(s: seq<byte>)
    requires forall i :: 0 <= i < |s| ==> s[i] != BACKSLASH
    ensures Unescaped(s) == s
  {
    if s != [] { NothingEscaped(s[1..]); }
  }

  /** A failing input: "a    b  x" and "a    b  y" compare equal, whatever x and y are. */
  lemma DifferentTextsSame(x: byte, y: byte)
    requires !IsSpace(x) && !IsSpace(y) && x != BACKSLASH && y != BACKSLASH
    ensures Same([97, 32, 32, 32, 32, 98, 32, 32, x], [97, 32, 32, 32, 32, 98, 32, 32, y])
  {
    hide Folded, Unescaped, UptoNul;
    FoldLosesText(x);
    FoldLosesText(y);
    NothingEscaped([97, 32, 32, 32, 32, 98, 32, 32, x]);
    NothingEscaped([97, 32, 32, 32, 32, 98, 32, 32, y]);
  }
}
