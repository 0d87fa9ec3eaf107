/**
  The 1 to 6 byte variable-length code of lib/utf8.h (the definition in section 2
  of RFC 2279).  Masks and shifts are written as arithmetic: b & 0x3F is b % 64,
  x << 6 is x * 64, and marker | payload is marker + payload, as the bits are disjoint.
*/
module Utf8 {
  import opened Bytes

  const REPLACEMENT: nat := 0xFFFD
  const MAX_CODE: nat := 0x7FFF_FFFF
  const MAX_UTF8_LEN: nat := 6

  type Unicode = c: int | 0 <= c <= UINT32_MAX

  function Pow64(k: nat): (r: nat)
    ensures r >= 1
  {
    if k == 0 then 1 else 64 * Pow64(k - 1)
  }

  function SizeOfUtf8(c: Unicode): nat {
    if c <= 0x7F then 1
    else if c <= 0x7FF then 2
    else if c <= 0xFFFF then 3
    else if c <= 0x1F_FFFF then 4
    else if c <= 0x3FF_FFFF then 5
    else if c <= 0x7FFF_FFFF then 6
    else 2
  }

  /** Length told by a first byte; 0 if no sequence starts with it. */
  function LengthFrom(first: byte): nat {
    if first < 0x80 then 1
    else if 0xC0 <= first < 0xE0 then 2
    else if 0xE0 <= first < 0xF0 then 3
    else if 0xF0 <= first < 0xF8 then 4
    else if 0xF8 <= first < 0xFC then 5
    else if 0xFC <= first < 0xFE then 6
    else 0
  }

  /** The fixed top bits of the first byte of an n-byte sequence. */
  function Marker(n: nat): nat
    requires 2 <= n <= 6
  {
    if n == 2 then 0xC0 else if n == 3 then 0xE0 else if n == 4 then 0xF0 else if n == 5 then 0xF8 else 0xFC
  }

  /** Least value that needs n bytes. */
  function MinValue(n: nat): nat
    requires 1 <= n <= 6
  {
    if n == 1 then 0 else if n == 2 then 0x80 else if n == 3 then 0x800
    else if n == 4 then 0x1_0000 else if n == 5 then 0x20_0000 else 0x400_0000
  }

  predicate Rejected(c: nat) {
    || 0xD800 <= c <= 0xDFFF
    || 0xFDD0 <= c <= 0xFDEF
    || c == 0xFFFE
    || c == 0xFFFF
  }

  /** What comes back when c is written and read. */
  function Carried(c: Unicode): Unicode {
    if c > MAX_CODE || Rejected(c) then REPLACEMENT else c
  }

  // ---------------------------------------------------------------- writing

  /** The last k bytes of a sequence: six bits each, most significant first. */
  function Continuations(c: nat, k: nat): (r: seq<byte>)
    ensures |r| == k
  {
    if k == 0 then [] else [0x80 + (c / Pow64(k - 1)) % 64] + Continuations(c, k - 1)
  }

  function Encode(c: Unicode): (r: seq<byte>)
    ensures 1 <= |r| <= MAX_UTF8_LEN
  {
    var v := if c > MAX_CODE then REPLACEMENT else c;
    var n := SizeOfUtf8(v);
    if n == 1 then [v]
    else
      FirstByteFits(v, n);
      [Marker(n) + v / Pow64(n - 1)] + Continuations(v, n - 1)
  }

  lemma Pow64Values()
    ensures Pow64(0) == 1 && Pow64(1) == 0x40 && Pow64(2) == 0x1000 && Pow64(3) == 0x4_0000
    ensures Pow64(4) == 0x100_0000 && Pow64(5) == 0x4000_0000
  {
    assert Pow64(3) == 64 * Pow64(2);
    assert Pow64(5) == 64 * Pow64(4);
  }

  lemma FirstByteFits(v: nat, n: nat)
    requires v <= MAX_CODE && n == SizeOfUtf8(v) && n >= 2
    ensures Marker(n) + v / Pow64(n - 1) < 256
    ensures LengthFrom(Marker(n) + v / Pow64(n - 1)) == n
    ensures v < Pow64(n)
  {
    Pow64Values();
    assert Pow64(6) == 64 * Pow64(5);
  }

  // ---------------------------------------------------------------- reading

  /** Reads k more continuation bytes from s[i..]; the flag says whether they were all there. */
  function ReadMore(s: seq<byte>, i: nat, k: nat, res: nat): (r: (bool, nat, nat))
    requires i <= |s|
    ensures i <= r.2 <= |s| && r.2 <= i + k
    ensures r.0 ==> r.2 == i + k
    decreases k
  {
    if k == 0 then (true, res, i)
    else if i == |s| || !(0x80 <= s[i] < 0xC0) then (false, res, i)
    else ReadMore(s, i + 1, k - 1, res * 64 + s[i] % 64)
  }

  /** The payload bits of the first byte of an n-byte sequence. */
  function FirstPayload(first: byte, n: nat): nat
    requires 2 <= n <= 6
  {
    first % (if n == 2 then 0x20 else if n == 3 then 0x10 else if n == 4 then 0x08 else if n == 5 then 0x04 else 0x02)
  }

  /** ReadUtf8 on the bytes up to the bound: the value and how many bytes were consumed. */
  function Decode(s: seq<byte>): (r: (nat, nat))
    ensures r.1 <= |s| && (s != [] ==> r.1 >= 1)
  {
    if s == [] then (0, 0)
    else
      var n := LengthFrom(s[0]);
      if n == 0 then (REPLACEMENT, 1)
      else if n == 1 then (s[0], 1)
      else
        var (ok, res, end) := ReadMore(s, 1, n - 1, FirstPayload(s[0], n));
        if !ok || res < MinValue(n) || Rejected(res) then (REPLACEMENT, end) else (res, end)
  }

  // ---------------------------------------------------------------- round trip

  lemma MultiplesGap(y: nat, z: nat, m: nat)
    ensures y < z ==> y * m + m <= z * m
  {
    if y < z { assert (y + 1) * m <= z * m; }
  }

  lemma DivisionIsUnique(c: nat, m: nat, y: nat, t: nat)
    requires c == y * m + t && t < m
    ensures c / m == y && c % m == t
  {
    MultiplesGap(y, c / m, m);
    MultiplesGap(c / m, y, m);
    assert c == (c / m) * m + c % m;
  }

  lemma Regroup(y: nat, b: nat, q: nat, r: nat)
    requires b < 64 && r < q
    ensures (64 * y + b) * q + r == y * (64 * q) + (b * q + r) && b * q + r < 64 * q
  {
    assert (64 * y + b) * q == (64 * y) * q + b * q;
    assert (64 * y) * q == y * (64 * q);
    MultiplesGap(b, 64, q);
  }

  /** Splitting off six bits above a place q. */
  lemma SixBitsAbove(c: nat, q: nat)
    requires q >= 1
    ensures c % (64 * q) == ((c / q) % 64) * q + c % q
    ensures c / (64 * q) == (c / q) / 64
  {
    var x, r := c / q, c % q;
    var y, b := x / 64, x % 64;
    SplitAt(c, q);
    Regroup(y, b, q, r);
    DivisionIsUnique(c, 64 * q, y, b * q + r);
  }

  /** The low 6k bits are the next six bits above the low 6(k - 1), and those. */
  lemma SixBits(c: nat, k: nat)
    requires 1 <= k <= 5
    ensures c % Pow64(k) == ((c / Pow64(k - 1)) % 64) * Pow64(k - 1) + c % Pow64(k - 1)
  {
    SixBitsAbove(c, Pow64(k - 1));
  }

  /** One more continuation byte carries six more low bits. */
  lemma SixMoreBits(c: nat, k: nat, res: nat)
    requires 1 <= k <= 5
    ensures var b := (c / Pow64(k - 1)) % 64;
            (res * 64 + b) * Pow64(k - 1) + c % Pow64(k - 1) == res * Pow64(k) + c % Pow64(k)
  {
    var q := Pow64(k - 1);
    var b := (c / q) % 64;
    SixBits(c, k);
    assert (res * 64 + b) * q == (res * 64) * q + b * q;
    assert (res * 64) * q == res * (64 * q);
  }

  lemma SplitAt(v: nat, m: nat)
    requires m >= 1
    ensures (v / m) * m + v % m == v
  {
  }

  lemma OneContinuation(before: seq<byte>, b: byte, more: seq<byte>, rest: seq<byte>)
    ensures before + ([b] + more) + rest == (before + [b]) + more + rest
    ensures (before + ([b] + more) + rest)[|before|] == b
  {
  }

  lemma ContinuationsStep(c: nat, k: nat)
    requires k > 0
    ensures Continuations(c, k) == [0x80 + (c / Pow64(k - 1)) % 64] + Continuations(c, k - 1)
  {
  }

  lemma ReadMoreStep(s: seq<byte>, i: nat, k: nat, res: nat)
    requires i < |s| && k > 0
    ensures ReadMore(s, i, k, res) == if 0x80 <= s[i] < 0xC0 then ReadMore(s, i + 1, k - 1, res * 64 + s[i] % 64) else (false, res, i)
  {
  }

  lemma NothingToRead(before: seq<byte>, c: nat, rest: seq<byte>, res: nat)
    ensures ReadMore(before + Continuations(c, 0) + rest, |before|, 0, res) == (true, res * Pow64(0) + c % Pow64(0), |before|)
  {
  }

  /** Continuation bytes add exactly the low 6k bits. */
  lemma {:induction false} ReadMoreContinuations(before: seq<byte>, c: nat, k: nat, rest: seq<byte>, res: nat)
    requires k <= 5
    ensures ReadMore(before + Continuations(c, k) + rest, |before|, k, res)
            == (true, res * Pow64(k) + c % Pow64(k), |before| + k)
    decreases k
  {
    var s := before + Continuations(c, k) + rest;
    hide Pow64, Continuations, ReadMore;
    if k == 0 {
      NothingToRead(before, c, rest, res);
    } else {
      var d := (c / Pow64(k - 1)) % 64;
      var b: byte := 0x80 + d;
      OneContinuation(before, b, Continuations(c, k - 1), rest);
      ContinuationsStep(c, k);
      assert b % 64 == d;
      ReadMoreContinuations(before + [b], c, k - 1, rest, res * 64 + d);
      SixMoreBits(c, k, res);
      ReadMoreStep(s, |before|, k, res);
    }
  }

  lemma PayloadOfFirst(v: nat, n: nat)
    requires v <= MAX_CODE && n == SizeOfUtf8(v) && n >= 2
    ensures Marker(n) + v / Pow64(n - 1) < 256
    ensures FirstPayload(Marker(n) + v / Pow64(n - 1), n) == v / Pow64(n - 1)
  {
    FirstByteFits(v, n);
    Pow64Values();
  }

  lemma EncodedLong(c: Unicode)
    requires var v: nat := if c > MAX_CODE then REPLACEMENT else c; SizeOfUtf8(v) > 1
    ensures var v: nat := if c > MAX_CODE then REPLACEMENT else c;
            var n := SizeOfUtf8(v);
            && Marker(n) + v / Pow64(n - 1) < 256
            && LengthFrom(Marker(n) + v / Pow64(n - 1)) == n
            && FirstPayload(Marker(n) + v / Pow64(n - 1), n) == v / Pow64(n - 1)
            && Encode(c) == [Marker(n) + v / Pow64(n - 1)] + Continuations(v, n - 1)
  {
    hide Pow64, Continuations, SizeOfUtf8;
    var v: nat := if c > MAX_CODE then REPLACEMENT else c;
    FirstByteFits(v, SizeOfUtf8(v));
    PayloadOfFirst(v, SizeOfUtf8(v));
  }

  lemma DecodedLong(s: seq<byte>, n: nat, res: nat, end: nat)
    requires s != [] && n == LengthFrom(s[0]) >= 2 && ReadMore(s, 1, n - 1, FirstPayload(s[0], n)) == (true, res, end)
    ensures Decode(s) == if res < MinValue(n) || Rejected(res) then (REPLACEMENT, end) else (res, end)
  {
    hide ReadMore, FirstPayload, MinValue, Rejected;
  }

  lemma LeastOfSize(v: Unicode)
    requires v <= MAX_CODE
    ensures MinValue(SizeOfUtf8(v)) <= v
  {
  }

  /** Reading what was written: the value carried, and exactly the bytes written, whatever follows. */
  lemma RoundTrip(c: Unicode, rest: seq<byte>)
    ensures Decode(Encode(c) + rest) == (Carried(c), |Encode(c)|)
  {
    var v: nat := if c > MAX_CODE then REPLACEMENT else c;
    if SizeOfUtf8(v) > 1 { RoundTripLong(c, rest); }
  }

  lemma RoundTripLong(c: Unicode, rest: seq<byte>)
    requires var v: nat := if c > MAX_CODE then REPLACEMENT else c; SizeOfUtf8(v) > 1
    ensures Decode(Encode(c) + rest) == (Carried(c), |Encode(c)|)
  {
    hide Pow64, ReadMore, Continuations, SizeOfUtf8, Decode, Encode, LengthFrom, FirstPayload, MinValue, Marker;
    var v: nat := if c > MAX_CODE then REPLACEMENT else c;
    var n := SizeOfUtf8(v);
    EncodedLong(c);
    var first: byte := Marker(n) + v / Pow64(n - 1);
    var s := [first] + Continuations(v, n - 1) + rest;
    ReadMoreContinuations([first], v, n - 1, rest, v / Pow64(n - 1));
    SplitAt(v, Pow64(n - 1));
    DecodedLong(s, n, v, n);
    LeastOfSize(v);
  }

  /** A value that is written and read back survives exactly when it has at most 31 bits and is not in a rejected range. */
  lemma CarriedExactly(c: Unicode, rest: seq<byte>)
    ensures Decode(Encode(c) + rest).0 == c <==>
              && c <= 0x7FFF_FFFF
              && !(0xD800 <= c <= 0xDFFF) && !(0xFDD0 <= c <= 0xFDEF) && c != 0xFFFE && c != 0xFFFF
    ensures Decode(Encode(c) + rest).0 != c ==> Decode(Encode(c) + rest).0 == 0xFFFD
  {
    hide Decode, Encode;
    RoundTrip(c, rest);
  }

  /** The bytes written for each length, six bits of the value in each but the first. */
  lemma EncodingIs(c: Unicode)
    ensures c <= 0x7F ==> Encode(c) == [c]
    ensures 0x80 <= c <= 0x7FF ==> Encode(c) == [0xC0 + c / 0x40, 0x80 + c % 0x40]
    ensures 0x800 <= c <= 0xFFFF ==> Encode(c) == [0xE0 + c / 0x1000, 0x80 + c / 0x40 % 0x40, 0x80 + c % 0x40]
    ensures c > 0x7FFF_FFFF ==> Encode(c) == [0xEF, 0xBF, 0xBD]
  {
    hide Pow64;
    Pow64Values();
    var v := if c > MAX_CODE then REPLACEMENT else c;
    if SizeOfUtf8(v) >= 2 {
      Continued(v);
    }
  }

  /** And beyond 16 bits. */
  lemma LongEncodingIs(c: Unicode)
    ensures 0x1_0000 <= c <= 0x1F_FFFF ==>
              Encode(c) == [0xF0 + c / 0x4_0000, 0x80 + c / 0x1000 % 0x40, 0x80 + c / 0x40 % 0x40, 0x80 + c % 0x40]
    ensures 0x20_0000 <= c <= 0x3FF_FFFF ==>
              Encode(c) == [0xF8 + c / 0x100_0000, 0x80 + c / 0x4_0000 % 0x40, 0x80 + c / 0x1000 % 0x40,
                            0x80 + c / 0x40 % 0x40, 0x80 + c % 0x40]
    ensures 0x400_0000 <= c <= 0x7FFF_FFFF ==>
              Encode(c) == [0xFC + c / 0x4000_0000, 0x80 + c / 0x100_0000 % 0x40, 0x80 + c / 0x4_0000 % 0x40,
                            0x80 + c / 0x1000 % 0x40, 0x80 + c / 0x40 % 0x40, 0x80 + c % 0x40]
  {
    hide Pow64;
    Pow64Values();
    if 0x1_0000 <= c <= MAX_CODE { Continued(c); }
  }

  /** The last bytes, one by one. */
  lemma Continued(v: nat)
    ensures Continuations(v, 1) == [0x80 + v / Pow64(0) % 64]
    ensures Continuations(v, 2) == [0x80 + v / Pow64(1) % 64] + Continuations(v, 1)
    ensures Continuations(v, 3) == [0x80 + v / Pow64(2) % 64] + Continuations(v, 2)
    ensures Continuations(v, 4) == [0x80 + v / Pow64(3) % 64] + Continuations(v, 3)
    ensures Continuations(v, 5) == [0x80 + v / Pow64(4) % 64] + Continuations(v, 4)
  {
    hide Pow64;
    assert Continuations(v, 0) == [];
  }

  /** SizeOfUtf8 is the length written, except for the values that are replaced. */
  lemma SizeIsLength(c: Unicode)
    ensures |Encode(c)| == SizeOfUtf8(c) <==> c <= 0x7FFF_FFFF
  {
    var v := if c > MAX_CODE then REPLACEMENT else c;
    if SizeOfUtf8(v) > 1 { FirstByteFits(v, SizeOfUtf8(v)); }
  }

  // ---------------------------------------------------------------- the other direction

  lemma DivStep(v: nat, k: nat)
    requires 1 <= k <= 5
    ensures v / Pow64(k) == (v / Pow64(k - 1)) / 64
  {
    SixBitsAbove(v, Pow64(k - 1));
  }

  lemma ReadMoreEnds(s: seq<byte>, i: nat, k: nat, res: nat)
    requires i <= |s| && ReadMore(s, i, k, res).0
    ensures if k == 0 then ReadMore(s, i, k, res) == (true, res, i) else i < |s|
  {
  }

  lemma NothingWritten(v: nat)
    ensures Continuations(v, 0) == [] && v / Pow64(0) == v
  {
  }

  /** Continuation bytes that were read are the ones their value would be written with. */
  lemma {:induction false} ReadMoreInverse(s: seq<byte>, i: nat, k: nat, res: nat)
    requires i <= |s| && k <= 5 && ReadMore(s, i, k, res).0
    ensures var (_, v, end) := ReadMore(s, i, k, res);
            v / Pow64(k) == res && s[i..end] == Continuations(v, k)
    decreases k
  {
    hide Pow64, Continuations, ReadMore;
    ReadMoreEnds(s, i, k, res);
    var (_, v, end) := ReadMore(s, i, k, res);
    if k == 0 {
      NothingWritten(v);
      assert s[i..end] == [];
    } else {
      ReadMoreStep(s, i, k, res);
      ReadMoreInverse(s, i + 1, k - 1, res * 64 + s[i] % 64);
      DivStep(v, k);
      ContinuationsStep(v, k);
      assert s[i] == 0x80 + (v / Pow64(k - 1)) % 64;
      assert s[i..end] == [s[i]] + s[i + 1..end];
    }
  }

  lemma PayloadFits(first: byte, v: nat, n: nat)
    requires n == LengthFrom(first) && n >= 2 && v / Pow64(n - 1) == FirstPayload(first, n) && MinValue(n) <= v
    ensures SizeOfUtf8(v) == n && v <= MAX_CODE && first == Marker(n) + v / Pow64(n - 1)
  {
    Pow64Values();
    hide Pow64;
    if
    case n == 2 =>
    case n == 3 =>
    case n == 4 =>
    case n == 5 =>
    case n == 6 =>
  }

  /** Only one spelling is read: what decodes to a value other than the replacement is that value's encoding. */
  lemma DecodeIsCanonical(s: seq<byte>)
    requires s != [] && Decode(s).0 != REPLACEMENT
    ensures var (c, n) := Decode(s);
            c <= MAX_CODE && !Rejected(c) && s[..n] == Encode(c)
  {
    var (c, end) := Decode(s);
    var n := LengthFrom(s[0]);
    if n >= 2 {
      hide Pow64;
      ReadMoreInverse(s, 1, n - 1, FirstPayload(s[0], n));
      PayloadFits(s[0], c, n);
      assert s[..end] == [s[0]] + s[1..end];
    }
  }

  // ---------------------------------------------------------------- the loops

  /** WriteUtf8: writes at p and answers one past the last byte; too little room leaves the buffer alone. */
  method WriteUtf8(buf: array<byte>, p: nat, c: Unicode, bound: nat) returns (q: nat)
    requires bound <= buf.Length && p <= buf.Length
    modifies buf
    ensures q == if bound < p + |Encode(c)| then p else p + |Encode(c)|
    ensures p < q ==> buf[p..q] == Encode(c)
    ensures forall j | 0 <= j < buf.Length && !(p <= j < q) :: buf[j] == old(buf[j])
  {
    var v: nat := c;
    if v > MAX_CODE { v := REPLACEMENT; }
    var numBytes := if v < 0x80 then 1 else if v < 0x800 then 2 else if v < 0x1_0000 then 3
                    else if v < 0x20_0000 then 4 else if v < 0x400_0000 then 5 else 6;
    assert numBytes == SizeOfUtf8(v);
    if p + numBytes > bound { return p; }
    if numBytes == 1 {
      buf[p] := v;
      return p + 1;
    }
    FirstByteFits(v, numBytes);
    q := p + numBytes;
    WriteBytes(buf, p, v, numBytes);
  }

  /** The first byte and the loop for the others. */
  method WriteBytes(buf: array<byte>, p: nat, v: nat, numBytes: nat)
    requires v <= MAX_CODE && numBytes == SizeOfUtf8(v) >= 2 && p + numBytes <= buf.Length
    modifies buf
    ensures |Encode(v)| == numBytes && buf[p..p + numBytes] == Encode(v)
    ensures forall j | 0 <= j < buf.Length && !(p <= j < p + numBytes) :: buf[j] == old(buf[j])
  {
    hide Pow64, Continuations, SizeOfUtf8, Encode;
    FirstByteAt(v, numBytes);
    buf[p] := Marker(numBytes) + v / Pow64(numBytes - 1);
    var q := p + 1;
    for i := 1 to numBytes
      invariant q == p + i
      invariant forall j | 0 <= j < i :: buf[p + j] == Encode(v)[j]
      invariant forall j | 0 <= j < buf.Length && !(p <= j < q) :: buf[j] == old(buf[j])
    {
      EncodeAt(v, numBytes, i);
      buf[q] := 0x80 + (v / Pow64(numBytes - 1 - i)) % 64;
      q := q + 1;
    }
  }

  lemma FirstByteAt(v: nat, n: nat)
    requires v <= MAX_CODE && n == SizeOfUtf8(v) && n >= 2
    ensures Marker(n) + v / Pow64(n - 1) < 256
    ensures |Encode(v)| == n && Encode(v)[0] == Marker(n) + v / Pow64(n - 1)
  {
    FirstByteFits(v, n);
  }

  /** The i-th byte of an encoding, counted from the front. */
  lemma EncodeAt(v: nat, n: nat, i: nat)
    requires v <= MAX_CODE && n == SizeOfUtf8(v) && 1 <= i < n
    ensures |Encode(v)| == n && Encode(v)[i] == 0x80 + (v / Pow64(n - 1 - i)) % 64
  {
    FirstByteFits(v, n);
    ContinuationAt(v, n - 1, i - 1);
  }

  lemma {:induction false} ContinuationAt(c: nat, k: nat, i: nat)
    requires i < k
    ensures Continuations(c, k)[i] == 0x80 + (c / Pow64(k - 1 - i)) % 64
  {
    if i == 0 {
    } else {
      ContinuationAt(c, k - 1, i - 1);
    }
  }

  /** ReadUtf8: the value at p and one past the last byte consumed. */
  method ReadUtf8(s: seq<byte>, p: nat, bound: nat) returns (c: nat, q: nat)
    requires p <= bound <= |s|
    ensures (c, q - p) == Decode(s[p..bound]) && p <= q <= bound
  {
    if p == bound { return 0, p; }
    hide Rejected, MinValue, FirstPayload, LengthFrom;
    ghost var t := s[p..bound];
    var first := s[p];
    var n := LengthFrom(first);
    q := p + 1;
    if n == 0 { return REPLACEMENT, q; }
    if n == 1 { return first, q; }
    var ok;
    ok, c, q := ReadRest(s, q, bound, n - 1, FirstPayload(first, n), t, 1);
    if !ok || c < MinValue(n) || Rejected(c) { return REPLACEMENT, q; }
  }

  /** The loop over continuation bytes: stops at the bound or at a byte that is none. */
  method ReadRest(s: seq<byte>, p: nat, bound: nat, k: nat, start: nat, ghost t: seq<byte>, ghost at: nat)
    returns (ok: bool, c: nat, q: nat)
    requires at <= p <= bound <= |s| && t == s[p - at..bound]
    ensures p <= q <= bound && (ok, c, q - p + at) == ReadMore(t, at, k, start)
  {
    hide ReadMore;
    c, q := start, p;
    for i := 0 to k
      invariant q == p + i <= bound
      invariant ReadMore(t, at, k, start) == ReadMore(t, at + i, k - i, c)
    {
      ReadMoreStops(t, at + i, k - i, c);
      if q == bound || !(0x80 <= s[q] < 0xC0) { return false, c, q; }
      ReadMoreStep(t, at + i, k - i, c);
      c := c * 64 + s[q] % 64;
      q := q + 1;
    }
    ReadMoreStops(t, at + k, 0, c);
    return true, c, q;
  }

  lemma ReadMoreStops(s: seq<byte>, i: nat, k: nat, res: nat)
    requires i <= |s|
    ensures k == 0 ==> ReadMore(s, i, k, res) == (true, res, i)
    ensures k > 0 && (i == |s| || !(0x80 <= s[i] < 0xC0)) ==> ReadMore(s, i, k, res) == (false, res, i)
  {
  }
}
