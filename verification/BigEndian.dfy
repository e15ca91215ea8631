/** Big-endian natural numbers: the fixed-width and the minimal form used by RLP. */
module BigEndian {
  import opened Prelude

  function Pow256(k: nat): (p: nat)
    ensures p > 0
  {
    if k == 0 then 1 else 256 * Pow256(k - 1)
  }

  /** The number a most-significant-first byte loop accumulates. */
  function Value(bs: Bytes): nat {
    if bs == [] then 0 else 256 * Value(bs[..|bs| - 1]) + bs[|bs| - 1]
  }

  /** The shortest big-endian form; zero is the empty string. */
  function Minimal(n: nat): Bytes {
    if n == 0 then [] else Minimal(n / 256) + [n % 256]
  }

  /** The form with exactly `width` bytes, high bytes dropped when `n` is too large. */
  function Fixed(n: nat, width: nat): (bs: Bytes)
    ensures |bs| == width
  {
    if width == 0 then [] else Fixed(n / 256, width - 1) + [n % 256]
  }

  lemma PowersOf256()
    ensures Pow256(1) == 0x100 && Pow256(2) == 0x1_0000 && Pow256(3) == 0x100_0000
    ensures Pow256(8) == U64_LIMIT
  {
    assert Pow256(4) == 0x1_0000_0000;
    assert Pow256(6) == 0x1_0000_0000_0000;
  }

  lemma PowStep(k: nat)
    ensures Pow256(k + 1) == 256 * Pow256(k)
  {
  }

  lemma {:induction false} PowMonotone(i: nat, j: nat)
    requires i <= j
    ensures Pow256(i) <= Pow256(j)
  {
    if i < j {
      PowMonotone(i, j - 1);
    }
  }

  lemma {:induction false} ValueBound(bs: Bytes)
    ensures Value(bs) < Pow256(|bs|)
  {
    if bs != [] {
      ValueBound(bs[..|bs| - 1]);
    }
  }

  lemma {:induction false} ValueAtLeast(bs: Bytes)
    requires bs != [] && bs[0] != 0
    ensures Value(bs) >= Pow256(|bs| - 1)
  {
    if |bs| > 1 {
      ValueAtLeast(bs[..|bs| - 1]);
    } else {
      assert bs[..0] == [];
    }
  }

  lemma {:induction false} ValueOfMinimal(n: nat)
    ensures Value(Minimal(n)) == n
    ensures n > 0 ==> Minimal(n) != [] && Minimal(n)[0] != 0
  {
    if n != 0 {
      ValueOfMinimal(n / 256);
      var m := Minimal(n);
      assert m[..|m| - 1] == Minimal(n / 256);
    }
  }

  lemma {:induction false} MinimalOfValue(bs: Bytes)
    requires bs != [] ==> bs[0] != 0
    ensures Minimal(Value(bs)) == bs
  {
    if bs != [] {
      var front := bs[..|bs| - 1];
      MinimalOfValue(front);
      ValueAtLeast(bs);
      assert Value(bs) / 256 == Value(front) && Value(bs) % 256 == bs[|bs| - 1];
      assert bs == front + [bs[|bs| - 1]];
    }
  }

  /** A number fits `width` bytes exactly when its minimal form does. */
  lemma {:induction false} MinimalWidth(n: nat, width: nat)
    ensures |Minimal(n)| <= width <==> n < Pow256(width)
  {
    if n != 0 && width != 0 {
      MinimalWidth(n / 256, width - 1);
    }
  }

  lemma ValueAppend(bs: Bytes, b: byte)
    ensures Value(bs + [b]) == 256 * Value(bs) + b
  {
    assert (bs + [b])[..|bs|] == bs;
  }

  lemma {:induction false} ValueOfFixed(n: nat, width: nat)
    requires n < Pow256(width)
    ensures Value(Fixed(n, width)) == n
  {
    if width != 0 {
      var high, low := n / 256, n % 256;
      assert n == 256 * high + low && high < Pow256(width - 1);
      ValueOfFixed(high, width - 1);
      ValueAppend(Fixed(high, width - 1), low);
    }
  }

  lemma {:induction false} FixedOfValue(bs: Bytes)
    ensures Fixed(Value(bs), |bs|) == bs
  {
    if bs != [] {
      FixedOfValue(bs[..|bs| - 1]);
    }
  }

  /** Stepping the accumulator over one more byte. */
  lemma ValueStep(bs: Bytes, i: nat)
    requires i < |bs|
    ensures Value(bs[..i + 1]) == 256 * Value(bs[..i]) + bs[i]
  {
    assert bs[..i + 1][..i] == bs[..i];
  }

  lemma {:induction false} ValueFront(b: byte, rest: Bytes)
    ensures Value([b] + rest) == b * Pow256(|rest|) + Value(rest)
  {
    if rest == [] {
      assert ([b] + rest)[..0] == [];
    } else {
      var front := rest[..|rest| - 1];
      ValueFront(b, front);
      assert ([b] + rest)[..|rest|] == [b] + front;
    }
  }

  /** Leading digits decide; the remainders stay below one unit `p` of the leading digit. */
  lemma LeadingDigit(x: nat, y: nat, p: nat, r: nat, s: nat)
    requires r < p && s < p
    ensures x < y ==> x * p + r < y * p + s
    ensures x == y ==> (x * p + r < y * p + s <==> r < s)
  {
    if x < y {
      assert (x + 1) * p <= y * p;
    }
  }

  /** Byte-lexicographic order of equal-width words is numeric order. */
  lemma {:induction false} NumericOrder(a: Bytes, b: Bytes)
    requires |a| == |b|
    ensures LexLess(a, b) <==> Value(a) < Value(b)
  {
    if a != [] {
      NumericOrder(a[1..], b[1..]);
      assert a == [a[0]] + a[1..] && b == [b[0]] + b[1..];
      ValueFront(a[0], a[1..]);
      ValueFront(b[0], b[1..]);
      ValueBound(a[1..]);
      ValueBound(b[1..]);
      LeadingDigit(a[0], b[0], Pow256(|a| - 1), Value(a[1..]), Value(b[1..]));
      LeadingDigit(b[0], a[0], Pow256(|a| - 1), Value(b[1..]), Value(a[1..]));
    }
  }
}
