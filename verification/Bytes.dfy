// Octets, words in network order and the few byte constants that the text formats use. A C string is the
// sequence of the bytes before its NUL.
module Bytes {

  type byte = b: int | 0 <= b < 256

  datatype Option<+T> = None | Some(value: T)

  const COMMA: byte := 44
  const DOT: byte := 46
  const COLON: byte := 58
  const ZERO_DIGIT: byte := 48

  /** "0123456789abcdef" and "0123456789ABCDEF". */
  const LOWER_DIGITS: seq<byte> := [48, 49, 50, 51, 52, 53, 54, 55, 56, 57, 97, 98, 99, 100, 101, 102]
  const UPPER_DIGITS: seq<byte> := [48, 49, 50, 51, 52, 53, 54, 55, 56, 57, 65, 66, 67, 68, 69, 70]

  /** size_t arithmetic wraps at this value. */
  const SIZES: nat := 0x1_0000_0000_0000_0000

  /** Two octets in network order as a number. */
  function Word(hi: byte, lo: byte): (w: nat)
    ensures w < 65536
  {
    hi as int * 256 + lo as int
  }

  /**
   * The last octet of a number in network order, and the number its other octets make. They are defined by
   * subtraction, which keeps proofs about them linear.
   */
  function Hi(w: nat): (h: nat)
    ensures 256 * h <= w
  {
    if w < 256 then 0 else 1 + Hi(w - 256)
  }

  function Lo(w: nat): (l: byte) {
    if w < 256 then w else Lo(w - 256)
  }

  lemma {:induction false} HiLoOfWord(hi: byte, lo: byte)
    ensures Hi(Word(hi, lo)) == hi && Lo(Word(hi, lo)) == lo
  {
    if hi > 0 {
      HiLoOfWord(hi - 1, lo);
      assert Word(hi, lo) - 256 == Word(hi - 1, lo);
    }
  }

  lemma {:induction false} HiLoSum(w: nat)
    ensures w == 256 * Hi(w) + Lo(w)
    ensures w < 256 ==> Lo(w) == w
  {
    if w >= 256 { HiLoSum(w - 256); }
  }

  lemma {:induction false} HiLoShift(w: nat)
    ensures Hi(w) == w / 256 && Lo(w) == w % 256
  {
    if w >= 256 { HiLoShift(w - 256); }
  }

  function Zeros(n: nat): (r: seq<byte>)
    ensures |r| == n && forall i :: 0 <= i < n ==> r[i] == 0
  {
    seq(n, _ => 0)
  }

  /** Index of the first `c` at or after `from`, or |s| when there is none. */
  function IndexOf(s: seq<byte>, c: byte, from: nat): (k: nat)
    requires from <= |s|
    ensures from <= k <= |s|
    ensures forall i :: from <= i < k ==> s[i] != c
    ensures k < |s| ==> s[k] == c
    decreases |s| - from
  {
    if from == |s| || s[from] == c then from else IndexOf(s, c, from + 1)
  }

  predicate SameAt(s: seq<byte>, i: nat, t: seq<byte>, k: nat)
    requires k < |t| && i + |t| <= |s|
  {
    s[i + k] == t[k]
  }

  /** `t` stands in `s` at offset `i`. */
  predicate At(s: seq<byte>, i: nat, t: seq<byte>) {
    i + |t| <= |s| && forall k :: 0 <= k < |t| ==> SameAt(s, i, t, k)
  }

  lemma AtIndex(s: seq<byte>, i: nat, t: seq<byte>, k: nat)
    requires At(s, i, t) && k < |t|
    ensures s[i + k] == t[k]
  {
    assert SameAt(s, i, t, k);
  }

  lemma AtSlice(s: seq<byte>, i: nat, t: seq<byte>)
    ensures At(s, i, t) <==> i + |t| <= |s| && s[i..i + |t|] == t
  {
    if At(s, i, t) {
      forall k | 0 <= k < |t| ensures s[i..i + |t|][k] == t[k] { AtIndex(s, i, t, k); }
    }
    if i + |t| <= |s| && s[i..i + |t|] == t {
      forall k | 0 <= k < |t| ensures SameAt(s, i, t, k) { assert s[i..i + |t|][k] == t[k]; }
    }
  }

  lemma AtConcat(s: seq<byte>, i: nat, a: seq<byte>, b: seq<byte>)
    ensures At(s, i, a + b) <==> At(s, i, a) && At(s, i + |a|, b)
  {
    var c, j := a + b, i + |a|;
    if At(s, i, c) {
      forall k | 0 <= k < |a| ensures SameAt(s, i, a, k) { AtIndex(s, i, c, k); }
      forall k | 0 <= k < |b| ensures SameAt(s, j, b, k) { AtIndex(s, i, c, |a| + k); }
    }
    if At(s, i, a) && At(s, j, b) {
      forall k | 0 <= k < |c| ensures SameAt(s, i, c, k) {
        if k < |a| { AtIndex(s, i, a, k); } else { AtIndex(s, j, b, k - |a|); }
      }
    }
  }

  /** A text stands at the front of itself. */
  lemma AtWhole(s: seq<byte>)
    ensures At(s, 0, s)
  {
    AtSlice(s, 0, s);
    assert s[0..|s|] == s;
  }
}
