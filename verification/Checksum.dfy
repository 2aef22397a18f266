/** The Internet checksum: the sender's two in-place computations and the receiver's check. */
module Checksum {
  import opened Words

  // ---- One's-complement sums (section 1 of RFC 1071) -------------------------------------

  // The big-endian word at i; a final odd byte is padded with zero.
  function Word(data: seq<byte>, i: nat): uint16
    requires i < |data|
  {
    data[i] as int * 0x100 + if i + 1 < |data| then data[i + 1] as int else 0
  }

  // Words before position n, leaving out the one at `skip` (none is left out when skip is negative).
  function Sum(data: seq<byte>, skip: int, n: nat): nat
    requires n % 2 == 0 && n <= |data| + 1
  {
    if n == 0 then 0
    else Sum(data, skip, n - 2) + if n - 2 == skip then 0 else Word(data, n - 2)
  }

  function Even(n: nat): nat { n + n % 2 }

  function Total(data: seq<byte>): nat { Sum(data, -1, Even(|data|)) }

  function Fold(x: nat): (r: nat)
    ensures r <= 0xFFFF
  {
    if x <= 0xFFFF then x else Fold(x / 0x1_0000 + x % 0x1_0000)
  }

  // The pseudo-header of section 3.1 of RFC 793, from the last four bytes of two 16-byte addresses.
  function PseudoHeader(src: seq<byte>, dst: seq<byte>, length: nat): nat
    requires |src| == 16 && |dst| == 16
  {
    Word(src, 12) + Word(src, 14) + Word(dst, 12) + Word(dst, 14) + 6 + length % 0x1_0000 + length / 0x1_0000
  }

  // The twelve bytes of the standard: both addresses, zero, the protocol number of TCP, the length.
  function StandardHeader(src: seq<byte>, dst: seq<byte>, length: uint16): seq<byte>
    requires |src| == 16 && |dst| == 16
  {
    src[12..] + dst[12..] + [0, 6, length / 0x100, length % 0x100]
  }

  lemma OneMoreWord(data: seq<byte>, i: nat)
    requires i % 2 == 0 && i < |data|
    ensures Sum(data, -1, 0) == 0 && Sum(data, -1, i + 2) == Sum(data, -1, i) + Word(data, i)
  {
  }

  lemma TwelveBytes(data: seq<byte>)
    requires |data| == 12
    ensures Total(data) == Word(data, 0) + Word(data, 2) + Word(data, 4)
      + Word(data, 6) + Word(data, 8) + Word(data, 10)
  {
    OneMoreWord(data, 0);
    OneMoreWord(data, 2);
    OneMoreWord(data, 4);
    OneMoreWord(data, 6);
    OneMoreWord(data, 8);
    OneMoreWord(data, 10);
  }

  /** What the code adds for the pseudo-header is the word sum of the standard's twelve bytes. */
  lemma PseudoHeaderIsStandard(src: seq<byte>, dst: seq<byte>, length: uint16)
    requires |src| == 16 && |dst| == 16
    ensures PseudoHeader(src, dst, length) == Total(StandardHeader(src, dst, length))
  {
    var h := StandardHeader(src, dst, length);
    TwelveBytes(h);
    assert h[0] == src[12] && h[1] == src[13] && h[2] == src[14] && h[3] == src[15];
    assert h[4] == dst[12] && h[5] == dst[13] && h[6] == dst[14] && h[7] == dst[15];
    assert h[8] == 0 && h[9] == 6 && h[10] == length / 0x100 && h[11] == length % 0x100;
  }

  // Two bytes make a word with the first one high.
  lemma WordsAreBigEndian(high: byte, low: byte)
    ensures Total([high, low]) == 0x100 * high as int + low && Total([high]) == 0x100 * high as int
  {
    OneMoreWord([high, low], 0);
    OneMoreWord([high], 0);
  }

  // ---- Folding ---------------------------------------------------------------------------

  // Folding reduces modulo 0xFFFF, with 0xFFFF in place of 0 for everything but 0 itself.
  lemma {:induction false} FoldMeaning(x: nat)
    ensures Fold(x) == if x == 0 then 0 else (x - 1) % 0xFFFF + 1
  {
    if x > 0xFFFF {
      var h := x / 0x1_0000;
      var y := h + x % 0x1_0000;
      FoldMeaning(y);
      AddMultiple(y - 1, h);
      assert x - 1 == y - 1 + 0xFFFF * h;
    }
  }

  lemma {:induction false} AddMultiple(x: nat, k: nat)
    ensures (x + 0xFFFF * k) % 0xFFFF == x % 0xFFFF
  {
    if k > 0 { AddMultiple(x, k - 1); assert x + 0xFFFF * k == (x + 0xFFFF * (k - 1)) + 0xFFFF; }
  }

  // Adding the complement of the folded sum gives all ones, and nothing else below all ones does.
  lemma ComplementExactly(rest: nat, w: uint16)
    ensures w == 0xFFFF - Fold(rest) ==> Fold(rest + w) == 0xFFFF
    ensures rest > 0 ==> (w == 0xFFFF - Fold(rest) <==> Fold(rest + w) == 0xFFFF && w != 0xFFFF)
  {
    FoldMeaning(rest);
    FoldMeaning(rest + w);
    if rest > 0 {
      var q, f := (rest - 1) / 0xFFFF, Fold(rest);
      assert rest == 0xFFFF * q + f;
      if f + w > 0 {
        AddMultiple(f + w - 1, q);
        assert Fold(rest + w) == (f + w - 1) % 0xFFFF + 1;
      }
    }
  }

  // ---- Sums under update -----------------------------------------------------------------

  // Data that differs at most in the skipped word has the same remaining sum.
  lemma {:induction false} SumUnaffected(a: seq<byte>, b: seq<byte>, skip: nat, n: nat)
    requires |a| == |b| && skip % 2 == 0 && n % 2 == 0 && n <= |a| + 1
    requires forall i :: 0 <= i < |a| && i != skip && i != skip + 1 ==> a[i] == b[i]
    ensures Sum(a, skip, n) == Sum(b, skip, n)
  {
    if n > 0 { SumUnaffected(a, b, skip, n - 2); }
  }

  lemma {:induction false} SumSplit(a: seq<byte>, skip: nat, n: nat)
    requires skip % 2 == 0 && n % 2 == 0 && n <= |a| + 1 && skip < |a|
    ensures Sum(a, -1, n) == Sum(a, skip, n) + if skip < n then Word(a, skip) else 0
  {
    if n > 0 { SumSplit(a, skip, n - 2); }
  }

  // Storing the complement of the folded rest in one word makes everything fold to all ones.
  lemma StoredComplement(extra: nat, a: seq<byte>, b: seq<byte>, at: nat)
    requires |a| == |b| && at % 2 == 0 && at + 1 < |a|
    requires forall i :: 0 <= i < |a| && i != at && i != at + 1 ==> a[i] == b[i]
    requires Word(b, at) == 0xFFFF - Fold(extra + Sum(a, at, Even(|a|)))
    ensures Fold(extra + Total(b)) == 0xFFFF
  {
    SumUnaffected(a, b, at, Even(|a|));
    SumSplit(b, at, Even(|b|));
    ComplementExactly(extra + Sum(a, at, Even(|a|)), Word(b, at));
  }

  // ---- The sender's loops ----------------------------------------------------------------

  method FoldLoop(start: uint32) returns (csum: uint32)
    ensures csum == Fold(start) && csum <= 0xFFFF
  {
    csum := start;
    while csum > 0xFFFF
      invariant Fold(csum) == Fold(start)
      decreases csum
    {
      csum := csum / 0x1_0000 + csum % 0x1_0000;
    }
  }

  method PseudoHeaderSum(src: seq<byte>, dst: seq<byte>, length: nat) returns (csum: uint32)
    requires |src| == 16 && |dst| == 16 && length <= 0xFFFF
    ensures csum == PseudoHeader(src, dst, length) <= 0x5_0006
  {
    csum := (src[12] as uint32 + src[14] as uint32) * 0x100;
    csum := csum + src[13] as uint32 + src[15] as uint32;
    csum := csum + (dst[12] as uint32 + dst[14] as uint32) * 0x100;
    csum := csum + dst[13] as uint32 + dst[15] as uint32;
    csum := csum + 6 + length % 0x1_0000 + length / 0x1_0000;
  }

  // Adds all words but the one at `skip`; the sum never leaves 32 bits.
  method AddWords(start: uint32, data: seq<byte>, skip: nat) returns (csum: uint32)
    requires start <= 0x5_0006 && |data| <= 0xFFFF
    requires skip + 1 < |data|
    ensures csum == start + Sum(data, skip, Even(|data|))
  {
    csum := start;
    var i := 0;
    while i < |data| - 1
      invariant i % 2 == 0 && i <= |data|
      invariant csum == start + Sum(data, skip, i) <= 0x5_0006 + 0x8000 * i
    {
      if i != skip {
        csum := csum + data[i] as uint32 * 0x100;
        csum := csum + data[i + 1] as uint32;
      }
      i := i + 2;
    }
    if |data| % 2 == 1 {
      csum := csum + data[|data| - 1] as uint32 * 0x100;
    }
  }

  /** The TCP checksum: whatever the segment's length and parity, pseudo-header and segment then sum to all ones. */
  method UpdateTcpChecksum(src: seq<byte>, dst: seq<byte>, data: array<byte>)
    requires |src| == 16 && |dst| == 16 && 18 <= data.Length <= 0xFFFF
    modifies data
    ensures Fold(PseudoHeader(src, dst, data.Length) + Total(data[..])) == 0xFFFF
    ensures forall i :: 0 <= i < data.Length && i != 16 && i != 17 ==> data[i] == old(data[i])
    ensures Accepts(dst, src, data[..])
  {
    ghost var was := data[..];
    var csum := PseudoHeaderSum(src, dst, data.Length);
    csum := AddWords(csum, data[..], 16);
    csum := FoldLoop(csum);
    csum := 0xFFFF - (csum + csum / 0x1_0000);
    data[16] := csum / 0x100;
    data[17] := csum % 0x100;
    StoredComplement(PseudoHeader(src, dst, data.Length), was, data[..], 16);
    SumUnaffected(was, data[..], 16, Even(data.Length));
    SentIsAccepted(src, dst, data[..]);
  }

  /** The IP header checksum over the first twenty bytes. */
  method WriteIpChecksum(data: array<byte>)
    requires 20 <= data.Length
    modifies data
    ensures Fold(Total(data[..20])) == 0xFFFF
    ensures forall i :: 0 <= i < data.Length && i != 10 && i != 11 ==> data[i] == old(data[i])
  {
    ghost var was := data[..20];
    var csum := AddWords(0, data[..20], 10);
    csum := FoldLoop(csum);
    csum := 0xFFFF - csum;
    data[10] := csum / 0x100;
    data[11] := csum % 0x100;
    StoredComplement(0, was, data[..20], 10);
  }

  // ---- The receiver ----------------------------------------------------------------------

  // The loop of `csum` over the segment, past the checksum field.
  method AddReceived(start: uint32, data: seq<byte>) returns (csum: uint32)
    requires start <= 0x5_0006 && 18 <= |data| <= 0xFFFF
    ensures csum == start + Sum(data, 16, Even(|data|))
  {
    csum := start;
    var i := 0;
    while i + 1 < |data|
      invariant i % 2 == 0 && i <= |data|
      invariant csum == start + Sum(data, 16, i) <= 0x5_0006 + 0x8000 * i
    {
      if i != 16 { csum := csum + data[i] as uint32 * 0x100 + data[i + 1]; }
      i := i + 2;
    }
    if |data| % 2 == 1 { csum := csum + data[|data| - 1] as uint32 * 0x100; }
  }

  // `csum` of the tcp package, compared with the header's field.
  method Verify(src: seq<byte>, dst: seq<byte>, data: seq<byte>) returns (ok: bool)
    requires |src| == 16 && |dst| == 16 && 18 <= |data| <= 0xFFFF
    ensures ok <==> Accepts(src, dst, data)
  {
    var csum: uint32 := src[12] as uint32 * 0x100 + src[13];
    csum := csum + src[14] as uint32 * 0x100 + src[15];
    csum := csum + dst[12] as uint32 * 0x100 + dst[13];
    csum := csum + dst[14] as uint32 * 0x100 + dst[15];
    csum := csum + 6 + |data|;
    assert csum == PseudoHeader(src, dst, |data|);
    csum := AddReceived(csum, data);
    csum := FoldLoop(csum);
    ok := 0xFFFF - csum == data[16] as uint32 * 0x100 + data[17];
  }

  ghost predicate Accepts(src: seq<byte>, dst: seq<byte>, data: seq<byte>)
    requires |src| == 16 && |dst| == 16 && 18 <= |data|
  {
    Word(data, 16) == 0xFFFF - Fold(PseudoHeader(src, dst, |data|) + Sum(data, 16, Even(|data|)))
  }

  /** The package's own receiver agrees with the standard's (everything sums to all ones) except that it
      refuses a checksum field of all ones. */
  lemma AcceptsExactly(src: seq<byte>, dst: seq<byte>, data: seq<byte>)
    requires |src| == 16 && |dst| == 16 && 18 <= |data|
    ensures Accepts(src, dst, data) <==>
        Fold(PseudoHeader(src, dst, |data|) + Total(data)) == 0xFFFF && Word(data, 16) != 0xFFFF
  {
    SumSplit(data, 16, Even(|data|));
    ComplementExactly(PseudoHeader(src, dst, |data|) + Sum(data, 16, Even(|data|)), Word(data, 16));
  }

  /** A sender's segment passes the receiver, which exchanges the two addresses. */
  lemma SentIsAccepted(src: seq<byte>, dst: seq<byte>, data: seq<byte>)
    requires |src| == 16 && |dst| == 16 && 18 <= |data|
    requires Word(data, 16) == 0xFFFF - Fold(PseudoHeader(src, dst, |data|) + Sum(data, 16, Even(|data|)))
    ensures Accepts(dst, src, data)
  {
    assert PseudoHeader(src, dst, |data|) == PseudoHeader(dst, src, |data|);
  }

  /** What a change of one word can hide: nothing but all zeros for all ones or back. */
  lemma OneWordChange(src: seq<byte>, dst: seq<byte>, a: seq<byte>, b: seq<byte>, at: nat)
    requires |src| == 16 && |dst| == 16 && |a| == |b| >= 18 && at % 2 == 0 && at < |a| && at != 16
    requires forall i :: 0 <= i < |a| && i != at && i != at + 1 ==> a[i] == b[i]
    requires Accepts(src, dst, a) && Word(a, at) != Word(b, at)
    ensures Accepts(src, dst, b) <==> ZeroForOnes(Word(a, at), Word(b, at))
  {
    AcceptsExactly(src, dst, a);
    AcceptsExactly(src, dst, b);
    var n := Even(|a|);
    assert Word(a, 16) == Word(b, 16);
    SumSplit(a, at, n);
    SumSplit(b, at, n);
    SumUnaffected(a, b, at, n);
    SwapExactly(PseudoHeader(src, dst, |a|) + Sum(a, at, n), Word(a, at), Word(b, at));
  }

  predicate ZeroForOnes(x: uint16, y: uint16) { (x == 0 && y == 0xFFFF) || (x == 0xFFFF && y == 0) }

  lemma SwapExactly(rest: nat, x: uint16, y: uint16)
    requires Fold(rest + x) == 0xFFFF && x != y && rest > 0
    ensures Fold(rest + y) == 0xFFFF <==> ZeroForOnes(x, y)
  {
    FoldMeaning(rest + x);
    FoldMeaning(rest + y);
    var q := (rest + x - 1) / 0xFFFF;
    assert rest + x - 1 == 0xFFFF * q + 0xFFFE;
    if y > x {
      Residue(rest + y - 1, q + 1, y - x - 1);
    } else if x - y < 0xFFFF {
      Residue(rest + y - 1, q, 0xFFFF - (x - y) - 1);
    } else {
      Residue(rest + y - 1, q - 1, 0xFFFE);
    }
  }

  lemma Residue(n: nat, k: nat, r: nat)
    requires n == 0xFFFF * k + r && r < 0xFFFF
    ensures n % 0xFFFF == r
  {
    AddMultiple(r, k);
  }
}
