/** 256-bit words: checked byte-wise addition, ordering and the canonical ABI word forms. */
module Uint {
  import opened Prelude
  import BigEndian

  type Word = Hash
  type Address = s: Bytes | |s| == 20 witness seq(20, _ => 0)

  function Zeros(n: nat): (bs: Bytes)
    ensures |bs| == n
  {
    seq(n, _ => 0)
  }

  function ZeroWord(): Word {
    Zeros(32)
  }

  function ZeroAddress(): Address {
    Zeros(20)
  }

  /** One more than the greatest 256-bit number. */
  function Limit256(): nat {
    BigEndian.Pow256(32)
  }

  function WordValue(w: Word): (n: nat)
    ensures n < Limit256()
  {
    BigEndian.ValueBound(w);
    BigEndian.Value(w)
  }

  function WordOf(n: nat): Word {
    BigEndian.Fixed(n, 32)
  }

  lemma WordOfValue(w: Word)
    ensures WordOf(WordValue(w)) == w
  {
    BigEndian.FixedOfValue(w);
  }

  lemma ValueOfWord(n: nat)
    requires n < Limit256()
    ensures WordValue(WordOf(n)) == n
  {
    BigEndian.ValueOfFixed(n, 32);
  }

  /** The derived byte-wise comparison is numeric. */
  lemma WordOrder(a: Word, b: Word)
    ensures LexLess(a, b) <==> WordValue(a) < WordValue(b)
  {
    BigEndian.NumericOrder(a, b);
  }

  /** Addition with overflow detection. */
  function CheckedSum(a: Word, b: Word): Option<Word> {
    if WordValue(a) + WordValue(b) < Limit256() then Some(WordOf(WordValue(a) + WordValue(b))) else None
  }

  /** Byte-wise addition with carry, from the last byte to the first. */
  method CheckedAdd(a: Word, b: Word) returns (r: Option<Word>)
    ensures r == CheckedSum(a, b)
  {
    var bytes := new byte[32];
    var carry := 0;
    var i := 32;
    assert a[32..] == [] && b[32..] == [] && bytes[32..] == [];
    while i > 0
      invariant 0 <= i <= 32 && 0 <= carry <= 1
      invariant BigEndian.Value(bytes[i..]) + carry * BigEndian.Pow256(32 - i) ==
                BigEndian.Value(a[i..]) + BigEndian.Value(b[i..])
    {
      i := i - 1;
      var sum := a[i] + b[i] + carry;
      ghost var low := bytes[i + 1..];
      bytes[i] := sum % 256;
      assert bytes[i..] == [sum % 256] + low && a[i..] == [a[i]] + a[i + 1..] && b[i..] == [b[i]] + b[i + 1..];
      CarryStep(a[i], b[i], carry, sum / 256, sum % 256, low, a[i + 1..], b[i + 1..]);
      carry := sum / 256;
    }
    assert a[0..] == a && b[0..] == b && bytes[0..] == bytes[..];
    SumOfBytes(a, b, bytes[..], carry);
    r := if carry == 0 then Some(bytes[..]) else None;
  }

  lemma CarryStep(x: byte, y: byte, carry: int, high: int, digit: byte, low: Bytes, a: Bytes, b: Bytes)
    requires x + y + carry == 256 * high + digit && |low| == |a| == |b|
    requires BigEndian.Value(low) + carry * BigEndian.Pow256(|low|) == BigEndian.Value(a) + BigEndian.Value(b)
    ensures BigEndian.Value([digit] + low) + high * BigEndian.Pow256(|low| + 1) ==
            BigEndian.Value([x] + a) + BigEndian.Value([y] + b)
  {
    hide *;
    BigEndian.ValueFront(digit, low);
    BigEndian.ValueFront(x, a);
    BigEndian.ValueFront(y, b);
    BigEndian.PowStep(|low|);
    DigitStep(x, y, carry, high, digit, BigEndian.Pow256(|low|), BigEndian.Pow256(|low| + 1));
  }

  lemma DigitStep(x: int, y: int, carry: int, high: int, low: int, p: int, q: int)
    requires x + y + carry == 256 * high + low && q == 256 * p
    ensures low * p + high * q == x * p + y * p + carry * p
  {
    assert (x + y + carry) * p == (256 * high + low) * p;
    assert high * q == 256 * high * p;
  }

  lemma SumOfBytes(a: Word, b: Word, bytes: Word, carry: int)
    requires 0 <= carry <= 1
    requires WordValue(bytes) + carry * Limit256() == WordValue(a) + WordValue(b)
    ensures CheckedSum(a, b) == if carry == 0 then Some(bytes) else None
  {
    WordOfValue(bytes);
    CarryOut(WordValue(bytes), carry, Limit256());
    hide WordValue;
    hide WordOf;
    hide Limit256;
  }

  lemma CarryOut(value: nat, carry: int, p: nat)
    requires 0 <= carry <= 1 && value < p
    ensures carry == 0 <==> value + carry * p < p
    ensures carry == 0 ==> value + carry * p == value
  {
  }
}
