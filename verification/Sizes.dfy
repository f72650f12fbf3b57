/** How many clusters a write needs: file_requiredCluster in 32-bit unsigned arithmetic. */
module Sizes {
  import opened Arith
  import opened Bytes

  function CeilDiv(x: nat, d: nat): nat
    requires d > 0
  {
    (x + d - 1) / d
  }

  /** The formula of file_requiredCluster with every operation wrapping, `hc` being the length of the chain. */
  function RequiredCluster(offset: nat, size: nat, fileSize: nat, hc: nat, cs: nat): nat
    requires cs > 0
  {
    RequiredBeyond(offset, size, fileSize, Spare(fileSize, hc, cs), hc * cs, cs)
  }

  /** The same for a chain of `p` bytes of which `spare` are in clusters behind the one the file ends in. */
  function RequiredBeyond(offset: nat, size: nat, fileSize: nat, spare: nat, p: nat, cs: nat): nat
    requires cs > 0
  {
    if (offset + size) % UINT32 <= fileSize then 0
    else if (size - fileSize + offset) % UINT32 <= spare then 0
    else Div((offset + size - p + cs - 1) % UINT32, cs)
  }

  /** The bytes in clusters behind the one the file ends in. */
  function Spare(fileSize: nat, hc: nat, cs: nat): nat
    requires cs > 0
  {
    (hc - Div((fileSize + cs - 1) % UINT32, cs)) % UINT32 * cs % UINT32
  }

  /** If the chain covers the file and everything fits 32 bits, the formula is the number of clusters missing, although
      the last subtraction may go below zero on the way. */
  lemma RequiredExact(offset: nat, size: nat, fileSize: nat, hc: nat, cs: nat)
    requires cs > 0 && fileSize <= hc * cs < UINT32 && fileSize + cs <= UINT32 && offset + size + cs <= UINT32
    ensures RequiredCluster(offset, size, fileSize, hc, cs)
         == if CeilDiv(offset + size, cs) <= hc then 0 else CeilDiv(offset + size, cs) - hc
  {
    hide CeilDiv, Spare, RequiredBeyond;
    var t, p := offset + size, hc * cs;
    SpareExact(fileSize, hc, cs);
    CeilDivLeast(t, cs, hc);
    Compared(offset, size, fileSize, Spare(fileSize, hc, cs), p, cs);
    if t > p { CeilDivMinus(t, cs, hc); }
  }

  /** The formula without the wrapping. */
  lemma Compared(offset: nat, size: nat, fileSize: nat, spare: nat, p: nat, cs: nat)
    requires cs > 0 && fileSize <= p < UINT32 && offset + size + cs <= UINT32 && p - cs < fileSize + spare <= p
    ensures RequiredBeyond(offset, size, fileSize, spare, p, cs)
         == if offset + size <= p then 0 else Div(offset + size - p + cs - 1, cs)
  {
    hide Div;
    if p - cs < offset + size <= p { DivZero(offset + size - p + cs - 1, cs); }
  }

  lemma DivZero(x: nat, d: nat)
    requires x < d
    ensures Div(x, d) == 0
  {
    DivModUnique(x, d, 0, x);
  }

  lemma SpareExact(fileSize: nat, hc: nat, cs: nat)
    requires cs > 0 && fileSize <= hc * cs < UINT32 && fileSize + cs <= UINT32
    ensures hc * cs - cs < fileSize + Spare(fileSize, hc, cs) <= hc * cs
  {
    var m := (fileSize + cs - 1) / cs;
    CeilDivBounds(fileSize, cs);
    CeilDivLeast(fileSize, cs, hc);
    MulMono(m, hc, cs);
    MulMono(1, cs, hc);
    assert (hc - m) * cs == hc * cs - m * cs;
    assert hc * 1 <= cs * hc && cs * hc == hc * cs;
    hide CeilDiv;
    Wraps(fileSize, hc, cs, m);
  }

  lemma Wraps(fileSize: nat, hc: nat, cs: nat, m: nat)
    requires cs > 0 && fileSize + cs <= UINT32 && m == (fileSize + cs - 1) / cs
    requires m <= hc < UINT32 && (hc - m) * cs < UINT32
    ensures Spare(fileSize, hc, cs) == (hc - m) * cs
  {
    assert (fileSize + cs - 1) % UINT32 == fileSize + cs - 1;
    assert (hc - m) % UINT32 == hc - m;
  }

  lemma CeilDivBounds(x: nat, d: nat)
    requires d > 0
    ensures x <= CeilDiv(x, d) * d < x + d
  {
    DivMod(x + d - 1, d);
  }

  /** CeilDiv(x, d) is the least number of pieces of size d that cover x. */
  lemma CeilDivLeast(x: nat, d: nat, n: nat)
    requires d > 0
    ensures CeilDiv(x, d) <= n <==> x <= n * d
  {
    CeilDivBounds(x, d);
    var c := CeilDiv(x, d);
    if c <= n {
      MulMono(c, n, d);
    } else {
      MulMono(n + 1, c, d);
      assert (n + 1) * d == n * d + d;
    }
  }

  lemma CeilDivMinus(x: nat, d: nat, n: nat)
    requires d > 0 && x > n * d
    ensures (x - n * d + d - 1) / d == CeilDiv(x, d) - n
  {
    var c := CeilDiv(x, d);
    DivMod(x + d - 1, d);
    CeilDivLeast(x, d, n);
    assert (c - n) * d == c * d - n * d;
    DivModUnique(x - n * d + d - 1, d, c - n, (x + d - 1) % d);
  }

  lemma CeilDivMono(a: nat, b: nat, d: nat)
    requires d > 0 && a <= b
    ensures CeilDiv(a, d) <= CeilDiv(b, d)
  {
    CeilDivBounds(b, d);
    CeilDivLeast(a, d, CeilDiv(b, d));
  }
}
