// The table-driven UTF-8 codec for characters of up to 31 bits (section 2 of RFC 2279).
module Utf8 {
  import opened Bytes

  /** A row of the conversion table, for sequences of one byte more than its index. */
  datatype Row = Row(cmask: nat, cval: nat, shift: nat, lmask: nat, lval: nat)

  const ROWS: nat := 6

  function Tab(t: nat): Row
    requires t < ROWS
  {
    if t == 0 then Row(0x80, 0x00, 0, 0x7F, 0)
    else if t == 1 then Row(0xE0, 0xC0, 6, 0x7FF, 0x80)
    else if t == 2 then Row(0xF0, 0xE0, 12, 0xFFFF, 0x800)
    else if t == 3 then Row(0xF8, 0xF0, 18, 0x1FFFFF, 0x10000)
    else if t == 4 then Row(0xFC, 0xF8, 24, 0x3FFFFFF, 0x200000)
    else Row(0xFE, 0xFC, 30, 0x7FFFFFFF, 0x4000000)
  }

  const CHARACTERS: nat := 0x80000000

  /** (c0 & cmask) == cval; the masks select leading bits. */
  predicate LeadIs(c0: byte, t: nat)
    requires t < ROWS
  {
    c0 as int - c0 as int % (256 - Tab(t).cmask) == Tab(t).cval
  }

  /** l & lmask; the masks select trailing bits. */
  function Masked(l: int, t: nat): nat {
    if t == 0 then l % 0x80 else if t == 1 then l % 0x800 else if t == 2 then l % 0x10000
    else if t == 3 then l % 0x200000 else if t == 4 then l % 0x4000000 else l % 0x80000000
  }

  /** ((c ^ 0x80) & 0xC0) == 0. */
  predicate Continues(c: byte) {
    0x80 <= c < 0xC0
  }

  /** l >> 6 * k. */
  function Shr(l: nat, k: nat): nat {
    if k == 0 then l else Shr(l / 64, k - 1)
  }

  // ----- Encoding -----

  function RowOf(w: nat): (t: nat)
    requires w < CHARACTERS
    ensures t < ROWS && Tab(t).lval <= w <= Tab(t).lmask
  {
    if w <= 0x7F then 0 else if w <= 0x7FF then 1 else if w <= 0xFFFF then 2
    else if w <= 0x1FFFFF then 3 else if w <= 0x3FFFFFF then 4 else 5
  }

  /** The encoding of a character: the lead byte, then six bits in each continuation byte. */
  ghost predicate Encodes(s: seq<byte>, w: nat)
    requires w < CHARACTERS
  {
    var t := RowOf(w);
    && |s| == t + 1 && s[0] == Tab(t).cval + Shr(w, t)
    && forall i :: 1 <= i <= t ==> s[i] == 0x80 + Shr(w, t - i) % 64
  }

  /**
   * unitoutf: the bytes of `wc` at the front of `s`, or -1 for a value of more than 31 bits. (This takes a `long` of
   * 64 bits; in one of 32 bits such a value is negative, and the first row takes it.)
   */
  method UniToUtf(s: array<byte>, wc: nat) returns (nc: int)
    requires s.Length >= ROWS
    modifies s
    ensures wc < CHARACTERS ==> 0 < nc <= s.Length && Encodes(s[..nc], wc)
    ensures wc >= CHARACTERS ==> nc == -1 && s[..] == old(s[..])
  {
    hide Shr;
    nc := 0;
    var t := 0;
    while t < ROWS
      invariant nc == t <= ROWS && (t > 0 ==> wc > Tab(t - 1).lmask) && s[..] == old(s[..])
    {
      nc := nc + 1;
      if wc <= Tab(t).lmask {
        var c := t;
        LeadFits(wc, t);
        s[0] := Tab(t).cval + Shr(wc, c);
        var i := 0;
        while c > 0
          invariant c + i == t && s[0] == Tab(t).cval + Shr(wc, t)
          invariant forall j :: 1 <= j <= i ==> s[j] == 0x80 + Shr(wc, t - j) % 64
        {
          c := c - 1;
          i := i + 1;
          s[i] := 0x80 + Shr(wc, c) % 64;
        }
        return;
      }
      t := t + 1;
    }
    return -1;
  }

  lemma LeadFits(w: nat, t: nat)
    requires t < ROWS && w <= Tab(t).lmask
    ensures Shr(w, t) < 256 - Tab(t).cmask && Tab(t).cval + Shr(w, t) < 256
  {
    BlockSize(t);
    ShrBound(w, t, 256 - Tab(t).cmask);
  }

  // ----- Decoding -----

  /** The bits gathered from the first k + 1 bytes, marks of the lead byte included. */
  function Gathered(s: seq<byte>, k: nat): int
    requires k < |s|
  {
    if k == 0 then s[0] else Gathered(s, k - 1) * 64 + (s[k] as int - 0x80)
  }

  /** The outcome from row `t` on: the character and its number of bytes. */
  function DecodeFrom(s: seq<byte>, t: nat): Option<(nat, nat)>
    requires t < |s|
    decreases ROWS - t
  {
    if t >= ROWS then None
    else if LeadIs(s[0], t) then
      var l := Masked(Gathered(s, t), t);
      if l < Tab(t).lval then None else Some((l, t + 1))
    else if t + 1 >= |s| || !Continues(s[t + 1]) then None
    else DecodeFrom(s, t + 1)
  }

  function Decode(s: seq<byte>): Option<(nat, nat)> {
    if s == [] then None else DecodeFrom(s, 0)
  }

  /** utftouni on the bytes of `s`: the number of bytes converted, or -1. */
  method UtfToUni(s: seq<byte>) returns (nc: int, p: nat)
    ensures match Decode(s)
            case None => nc == -1
            case Some((w, n)) => p == w && nc == n
  {
    hide LeadIs;
    nc, p := 0, 0;
    if |s| <= nc { return -1, p; }
    var l: int := s[0];
    var t := 0;
    while t < ROWS
      invariant nc == t < |s| && l == Gathered(s, t) && Decode(s) == DecodeFrom(s, t)
    {
      nc := nc + 1;
      if LeadIs(s[0], t) {
        l := Masked(l, t);
        if l < Tab(t).lval { return -1, p; }
        p := l;
        return;
      }
      if |s| <= nc { return -1, p; }
      if !Continues(s[nc]) { return -1, p; }
      l := l * 64 + (s[nc] as int - 0x80);
      t := t + 1;
    }
    return -1, p;
  }

  // ----- The two are inverse -----

  /** The bits of the first k + 1 bytes of a sequence for row `t`. */
  function Payload(s: seq<byte>, t: nat, k: nat): int
    requires k < |s| && t < ROWS
  {
    if k == 0 then s[0] as int - Tab(t).cval else Payload(s, t, k - 1) * 64 + (s[k] as int - 0x80)
  }

  /** x * 64^k. */
  function Block(x: nat, k: nat): (r: nat)
    ensures r >= x
  {
    if k == 0 then x else 64 * Block(x, k - 1)
  }

  lemma BlockSize(t: nat)
    requires t < ROWS
    ensures Block(256 - Tab(t).cmask, t) == Tab(t).lmask + 1
    ensures Masked(Block(Tab(t).cval, t), t) == 0
  {
    if t == 0 {
    } else if t == 1 {
      assert Block(32, 1) == 64 * Block(32, 0);
    } else if t == 2 {
      assert Block(16, 1) == 64 * 16 && Block(0xE0, 1) == 64 * 0xE0;
    } else if t == 3 {
      assert Block(8, 1) == 64 * 8 && Block(0xF0, 1) == 64 * 0xF0;
      assert Block(8, 2) == 64 * 64 * 8 && Block(0xF0, 2) == 64 * 64 * 0xF0;
    } else if t == 4 {
      assert Block(4, 1) == 64 * 4 && Block(0xF8, 1) == 64 * 0xF8;
      assert Block(4, 2) == 64 * 64 * 4 && Block(0xF8, 2) == 64 * 64 * 0xF8;
      assert Block(4, 3) == 64 * 64 * 64 * 4 && Block(0xF8, 3) == 64 * 64 * 64 * 0xF8;
    } else {
      assert Block(2, 1) == 64 * 2 && Block(0xFC, 1) == 64 * 0xFC;
      assert Block(2, 2) == 64 * 64 * 2 && Block(0xFC, 2) == 64 * 64 * 0xFC;
      assert Block(2, 3) == 64 * 64 * 64 * 2 && Block(0xFC, 3) == 64 * 64 * 64 * 0xFC;
      assert Block(2, 4) == 64 * 64 * 64 * 64 * 2 && Block(0xFC, 4) == 64 * 64 * 64 * 64 * 0xFC;
    }
  }

  lemma {:induction false} ShrBound(l: nat, k: nat, d: nat)
    requires l < Block(d, k)
    ensures Shr(l, k) < d
  {
    if k > 0 { ShrBound(l / 64, k - 1, d); }
  }

  lemma {:induction false} ShrStep(l: nat, k: nat)
    ensures Shr(l, k + 1) == Shr(l, k) / 64
  {
    if k > 0 { ShrStep(l / 64, k - 1); }
  }

  /** The marks of the lead byte end up above the payload. */
  lemma {:induction false} GatheredIsPayload(s: seq<byte>, t: nat, k: nat)
    requires k < |s| && t < ROWS
    ensures Gathered(s, k) == Payload(s, t, k) + Block(Tab(t).cval, k)
  {
    if k > 0 { GatheredIsPayload(s, t, k - 1); }
  }

  lemma {:induction false} PayloadBound(s: seq<byte>, t: nat, k: nat)
    requires k < |s| && t < ROWS && LeadIs(s[0], t) && forall i :: 1 <= i <= k ==> Continues(s[i])
    ensures 0 <= Payload(s, t, k) < Block(256 - Tab(t).cmask, k)
  {
    if k > 0 { PayloadBound(s, t, k - 1); }
  }

  /** What the mask leaves of the gathered bits is the payload. */
  lemma MaskedPayload(s: seq<byte>, t: nat)
    requires t < ROWS && t < |s| && LeadIs(s[0], t) && forall i :: 1 <= i <= t ==> Continues(s[i])
    ensures Masked(Gathered(s, t), t) == Payload(s, t, t)
  {
    hide LeadIs;
    GatheredIsPayload(s, t, t);
    PayloadBound(s, t, t);
    BlockSize(t);
    MaskOfSum(Payload(s, t, t), Block(Tab(t).cval, t), t);
  }

  lemma Mask0(a: nat, b: nat)
    requires a < 0x80 && Masked(b, 0) == 0
    ensures Masked(a + b, 0) == a
  {
  }

  lemma Mask1(a: nat, b: nat)
    requires a < 0x800 && Masked(b, 1) == 0
    ensures Masked(a + b, 1) == a
  {
  }

  lemma Mask2(a: nat, b: nat)
    requires a < 0x10000 && Masked(b, 2) == 0
    ensures Masked(a + b, 2) == a
  {
  }

  lemma Mask3(a: nat, b: nat)
    requires a < 0x200000 && Masked(b, 3) == 0
    ensures Masked(a + b, 3) == a
  {
  }

  lemma Mask4(a: nat, b: nat)
    requires a < 0x4000000 && Masked(b, 4) == 0
    ensures Masked(a + b, 4) == a
  {
  }

  lemma Mask5(a: nat, b: nat)
    requires a < 0x80000000 && Masked(b, 5) == 0
    ensures Masked(a + b, 5) == a
  {
  }

  lemma MaskOfSum(a: nat, b: nat, t: nat)
    requires t < ROWS && a <= Tab(t).lmask && Masked(b, t) == 0
    ensures Masked(a + b, t) == a
  {
    hide Masked;
    if t == 0 {
      Mask0(a, b);
    } else if t == 1 {
      Mask1(a, b);
    } else if t == 2 {
      Mask2(a, b);
    } else if t == 3 {
      Mask3(a, b);
    } else if t == 4 {
      Mask4(a, b);
    } else {
      Mask5(a, b);
    }
  }

  /** The first matching row decides, if the bytes up to it continue. */
  lemma {:induction false} DecodeReaches(s: seq<byte>, t: nat, from: nat)
    requires from <= t < ROWS && t < |s| && LeadIs(s[0], t)
    requires forall i :: 1 <= i <= t ==> Continues(s[i])
    requires forall u :: 0 <= u < t ==> !LeadIs(s[0], u)
    ensures DecodeFrom(s, from) == DecodeFrom(s, t)
    decreases t - from
  {
    if from < t { DecodeReaches(s, t, from + 1); }
  }

  lemma {:induction false} DecodeStops(s: seq<byte>, from: nat) returns (t: nat)
    requires from < |s| && DecodeFrom(s, from).Some?
    ensures from <= t < ROWS && t < |s| && LeadIs(s[0], t) && DecodeFrom(s, from) == DecodeFrom(s, t)
    ensures forall i :: from < i <= t ==> Continues(s[i])
    decreases ROWS - from
  {
    if LeadIs(s[0], from) { t := from; } else { t := DecodeStops(s, from + 1); }
  }

  /** A lead byte of one row is not a lead byte of another. */
  lemma OneRow(c0: byte, t: nat)
    requires t < ROWS
    ensures LeadIs(c0, t) <==> Tab(t).cval <= c0 < Tab(t).cval + (256 - Tab(t).cmask)
    ensures LeadIs(c0, t) ==> forall u :: 0 <= u < t ==> !LeadIs(c0, u)
  {
  }

  lemma {:induction false} PayloadOfEncoding(s: seq<byte>, w: nat, k: nat)
    requires w < CHARACTERS && |s| > RowOf(w) && Encodes(s[..RowOf(w) + 1], w) && k <= RowOf(w)
    ensures Payload(s, RowOf(w), k) == Shr(w, RowOf(w) - k)
  {
    var t := RowOf(w);
    var e := s[..t + 1];
    assert e[k] == s[k] && e[0] == s[0];
    if k > 0 {
      PayloadOfEncoding(s, w, k - 1);
      ShrStep(w, t - k);
    }
  }

  /** Main result: decoding gives a character back from its encoding, whatever bytes follow. */
  lemma DecodeOfEncoding(s: seq<byte>, w: nat)
    requires w < CHARACTERS && |s| > RowOf(w) && Encodes(s[..RowOf(w) + 1], w)
    ensures Decode(s) == Some((w, RowOf(w) + 1))
  {
    hide LeadIs;
    var t := RowOf(w);
    var e := s[..t + 1];
    assert e[0] == s[0];
    LeadFits(w, t);
    OneRow(s[0], t);
    forall i | 1 <= i <= t ensures Continues(s[i]) { assert e[i] == s[i]; }
    DecodeReaches(s, t, 0);
    MaskedPayload(s, t);
    PayloadOfEncoding(s, w, t);
  }

  lemma {:induction false} ShrOfPayload(s: seq<byte>, t: nat, k: nat, j: nat)
    requires j <= k < |s| && t < ROWS && LeadIs(s[0], t) && forall i :: 1 <= i <= k ==> Continues(s[i])
    ensures Payload(s, t, k) >= 0 && Payload(s, t, k - j) >= 0 && Shr(Payload(s, t, k), j) == Payload(s, t, k - j)
  {
    hide LeadIs;
    PayloadBound(s, t, k);
    PayloadBound(s, t, k - j);
    if j > 0 { ShrOfPayload(s, t, k - 1, j - 1); }
  }

  lemma RowIs(w: nat, t: nat)
    requires t < ROWS && Tab(t).lval <= w <= Tab(t).lmask
    ensures w < CHARACTERS && RowOf(w) == t
  {
  }

  lemma PayloadEncodes(s: seq<byte>, t: nat)
    requires t < ROWS && t < |s| && LeadIs(s[0], t) && forall i :: 1 <= i <= t ==> Continues(s[i])
    requires Tab(t).lval <= Payload(s, t, t) <= Tab(t).lmask
    ensures var w := Payload(s, t, t); w < CHARACTERS && RowOf(w) == t && Encodes(s[..t + 1], w)
  {
    hide LeadIs, Shr, RowOf, Payload;
    var w := Payload(s, t, t);
    RowIs(w, t);
    ShrOfPayload(s, t, t, t);
    PayloadStart(s, t);
    forall i | 1 <= i <= t ensures s[i] == 0x80 + Shr(w, t - i) % 64 {
      ShrOfPayload(s, t, t, t - i);
      PayloadEnd(s, t, i);
    }
  }

  lemma PayloadStart(s: seq<byte>, t: nat)
    requires s != [] && t < ROWS
    ensures Payload(s, t, 0) == s[0] as int - Tab(t).cval
  {
  }

  lemma PayloadEnd(s: seq<byte>, t: nat, i: nat)
    requires 1 <= i < |s| && t < ROWS && Continues(s[i])
    ensures Payload(s, t, i) % 64 == s[i] as int - 0x80
  {
  }

  /** Main result: what the decoder accepts is exactly the encoding of its result, so only shortest forms. */
  lemma EncodingOfDecode(s: seq<byte>)
    requires Decode(s).Some?
    ensures var (w, n) := Decode(s).value; w < CHARACTERS && n == RowOf(w) + 1 <= |s| && Encodes(s[..n], w)
  {
    hide LeadIs, Encodes, Payload, Gathered;
    var t := DecodeStops(s, 0);
    MaskedPayload(s, t);
    PayloadBound(s, t, t);
    BlockSize(t);
    PayloadEncodes(s, t);
  }

  // ----- Strings of characters -----

  type Character = w: nat | w < CHARACTERS

  function Encode(w: Character): (s: seq<byte>)
    ensures Encodes(s, w)
  {
    var t := RowOf(w);
    LeadFits(w, t);
    [Tab(t).cval + Shr(w, t)] + seq(t, i requires 0 <= i < t => 0x80 + Shr(w, t - 1 - i) % 64)
  }

  lemma EncodingIs(s: seq<byte>, w: Character)
    requires Encodes(s, w)
    ensures s == Encode(w)
  {
  }

  function EncodeAll(ws: seq<Character>): seq<byte> {
    if ws == [] then [] else Encode(ws[0]) + EncodeAll(ws[1..])
  }

  /** The characters read by repeated decoding until the bytes are used up. */
  function DecodeAll(s: seq<byte>): Option<seq<Character>>
    decreases |s|
  {
    if s == [] then Some([]) else
      match Decode(s)
      case None => None
      case Some((w, n)) =>
        EncodingOfDecode(s);
        match DecodeAll(s[n..])
        case None => None
        case Some(ws) => Some([w] + ws)
  }

  /** Main result: a concatenation of encodings decodes to its characters, and only that. */
  lemma {:induction false} DecodeAllOfEncodeAll(ws: seq<Character>)
    ensures DecodeAll(EncodeAll(ws)) == Some(ws)
  {
    hide Encode, Encodes, Decode, RowOf;
    if ws != [] {
      var first, rest := Encode(ws[0]), EncodeAll(ws[1..]);
      var s := first + rest;
      FirstEncoding(s, ws[0]);
      assert s[|first|..] == rest;
      DecodeAllOfEncodeAll(ws[1..]);
      assert s != [] && EncodeAll(ws) == s && [ws[0]] + ws[1..] == ws;
    }
  }

  lemma FirstEncoding(s: seq<byte>, w: Character)
    requires Encode(w) <= s
    ensures |Encode(w)| > 0 && Decode(s) == Some((w, |Encode(w)|))
  {
    hide Shr, Decode, Encode;
    assert s[..RowOf(w) + 1] == Encode(w);
    DecodeOfEncoding(s, w);
  }

  lemma {:induction false} EncodeAllOfDecodeAll(s: seq<byte>)
    requires DecodeAll(s).Some?
    ensures EncodeAll(DecodeAll(s).value) == s
    decreases |s|
  {
    hide Encode, Encodes, Decode, RowOf;
    if s != [] {
      var (w, n) := Decode(s).value;
      EncodingOfDecode(s);
      EncodingIs(s[..n], w);
      EncodeAllOfDecodeAll(s[n..]);
      assert s == s[..n] + s[n..];
      assert DecodeAll(s).value[1..] == DecodeAll(s[n..]).value;
    }
  }

  lemma EncodeAllInjective(ws: seq<Character>, vs: seq<Character>)
    requires EncodeAll(ws) == EncodeAll(vs)
    ensures ws == vs
  {
    DecodeAllOfEncodeAll(ws);
    DecodeAllOfEncodeAll(vs);
  }

  // ----- The format -----

  lemma Shr2(w: nat)
    ensures Shr(w, 0) == w && Shr(w, 1) == w / 64 && Shr(w, 2) == w / 64 / 64
  {
    assert Shr(w / 64, 1) == w / 64 / 64;
  }

  lemma Shr5(w: nat)
    ensures Shr(w, 3) == w / 64 / 64 / 64 && Shr(w, 4) == w / 64 / 64 / 64 / 64
    ensures Shr(w, 5) == w / 64 / 64 / 64 / 64 / 64
  {
    hide Shr;
    Shr2(w);
    ShrStep(w, 2);
    ShrStep(w, 3);
    ShrStep(w, 4);
  }

  lemma ShrOctets(w: Character)
    ensures var last := 0x80 + Shr(w, 0) % 64; var d, e := 0x80 + Shr(w, 1) % 64, 0x80 + Shr(w, 2) % 64;
            var f, g := 0x80 + Shr(w, 3) % 64, 0x80 + Shr(w, 4) % 64;
            Encode(w) ==
              if w < 0x80 then [Shr(w, 0)]
              else if w < 0x800 then [0xC0 + Shr(w, 1), last]
              else if w < 0x10000 then [0xE0 + Shr(w, 2), d, last]
              else if w < 0x200000 then [0xF0 + Shr(w, 3), e, d, last]
              else if w < 0x4000000 then [0xF8 + Shr(w, 4), f, e, d, last]
              else [0xFC + Shr(w, 5), g, f, e, d, last]
  {
    hide Shr;
    LeadFits(w, RowOf(w));
  }

  /** Main result: the octets of each length, as section 2 of RFC 2279 gives them. */
  lemma Octets(w: Character)
    ensures var d := w / 64; var e := d / 64; var f := e / 64; var g := f / 64; var h := g / 64;
            var last := 0x80 + w % 64;
            Encode(w) ==
              if w < 0x80 then [w]
              else if w < 0x800 then [0xC0 + d, last]
              else if w < 0x10000 then [0xE0 + e, 0x80 + d % 64, last]
              else if w < 0x200000 then [0xF0 + f, 0x80 + e % 64, 0x80 + d % 64, last]
              else if w < 0x4000000 then [0xF8 + g, 0x80 + f % 64, 0x80 + e % 64, 0x80 + d % 64, last]
              else [0xFC + h, 0x80 + g % 64, 0x80 + f % 64, 0x80 + e % 64, 0x80 + d % 64, last]
  {
    hide Shr, Encode;
    ShrOctets(w);
    Shr2(w);
    Shr5(w);
  }

  /** Main result: ASCII is encoded as itself, and every other octet of an encoding shows what it is. */
  lemma Format(w: Character)
    ensures w < 0x80 <==> Encode(w)[0] < 0x80
    ensures w < 0x80 ==> Encode(w) == [w]
    ensures !Continues(Encode(w)[0]) && forall i :: 1 <= i < |Encode(w)| ==> Continues(Encode(w)[i])
  {
    hide Shr;
    Shr2(w);
    LeadFits(w, RowOf(w));
  }

  /** One text of bytes is before another: at the first difference, the byte is less. */
  ghost predicate Before(s: seq<byte>, t: seq<byte>) {
    exists i :: 0 <= i < |s| && i < |t| && s[..i] == t[..i] && s[i] < t[i]
  }

  lemma {:induction false} ShrMonotonic(w: nat, v: nat, k: nat)
    requires w <= v
    ensures Shr(w, k) <= Shr(v, k)
  {
    if k > 0 { ShrMonotonic(w / 64, v / 64, k - 1); }
  }

  /** The first digit, in base 64, at which two numbers differ. */
  lemma {:induction false} FirstDifference(w: nat, v: nat, t: nat) returns (k: nat)
    requires w < v
    ensures k <= t && Shr(w, k) < Shr(v, k) && forall j :: k < j <= t ==> Shr(w, j) == Shr(v, j)
  {
    ShrMonotonic(w, v, t);
    if Shr(w, t) < Shr(v, t) {
      k := t;
    } else {
      assert t > 0;
      k := FirstDifference(w, v, t - 1);
    }
  }

  /** Main result: the order of the encodings as bytes is the order of the characters. */
  lemma OrderKept(w: Character, v: Character)
    requires w < v
    ensures Before(Encode(w), Encode(v))
  {
    hide Shr;
    var a, b, t := Encode(w), Encode(v), RowOf(w);
    LeadFits(w, t);
    LeadFits(v, RowOf(v));
    if t < RowOf(v) {
      assert a[..0] == b[..0] && a[0] < b[0];
    } else {
      var k := FirstDifference(w, v, t);
      var i := t - k;
      forall j | 0 <= j < i ensures a[j] == b[j] {}
      assert a[..i] == b[..i];
      if k < t {
        ShrStep(w, k);
        ShrStep(v, k);
      }
      assert a[i] < b[i];
    }
  }
}
