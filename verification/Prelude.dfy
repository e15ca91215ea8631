/** Value types shared by every component: bytes, nibbles, hashes and results. */
module Prelude {

  /** A value that may be missing; usable with `:-`. */
  datatype Option<+T> = None | Some(value: T) {
    predicate IsFailure() {
      None?
    }

    function PropagateFailure<U>(): (r: Option<U>)
      requires None?
    {
      None
    }

    function Extract(): T
      requires Some?
    {
      value
    }
  }

  /** A success or an error; usable with `:-`. */
  datatype Result<+T, +E> = Ok(value: T) | Err(error: E) {
    predicate IsFailure() {
      Err?
    }

    function PropagateFailure<U>(): (r: Result<U, E>)
      requires Err?
    {
      Err(error)
    }

    function Extract(): T
      requires Ok?
    {
      value
    }
  }

  type byte = x: int | 0 <= x < 256
  type nibble = x: int | 0 <= x < 16
  type Bytes = seq<byte>
  type Nibbles = seq<nibble>
  type Hash = s: Bytes | |s| == 32 witness seq(32, _ => 0)

  /** The hash function is a parameter of everything that hashes: nothing is known of it
      beyond being a total function to 32 bytes. */
  type Keccak = Bytes -> Hash

  const U64_LIMIT: nat := 0x1_0000_0000_0000_0000

  type u32 = x: int | 0 <= x < 0x1_0000_0000
  type i32 = x: int | -0x8000_0000 <= x < 0x8000_0000
  type u64 = x: int | 0 <= x < U64_LIMIT

  /** The bytes of a text: the code of each character. */
  function Ascii(text: string): (bs: Bytes)
    ensures |bs| == |text|
  {
    seq(|text|, i requires 0 <= i < |text| => text[i] as int % 256)
  }

  /** Two different strings of `s` with one hash. Collisions are only ever claimed over the
      finite set of strings a statement is about. */
  ghost predicate Collides(H: Keccak, s: set<Bytes>) {
    exists a, b :: a in s && b in s && a != b && H(a) == H(b)
  }

  /** The byte-wise (or nibble-wise) lexicographic order; a proper prefix comes first. */
  predicate LexLess(a: seq<int>, b: seq<int>) {
    if b == [] then false
    else if a == [] then true
    else a[0] < b[0] || (a[0] == b[0] && LexLess(a[1..], b[1..]))
  }

  /** Both halves of each byte, high half first. */
  function NibblesOf(bs: Bytes): (ns: Nibbles)
    ensures |ns| == 2 * |bs|
  {
    if bs == [] then [] else [bs[0] / 16, bs[0] % 16] + NibblesOf(bs[1..])
  }

  lemma {:induction false} NibblesAt(bs: Bytes, i: nat)
    requires i < 2 * |bs|
    ensures NibblesOf(bs)[i] == if i % 2 == 0 then bs[i / 2] / 16 else bs[i / 2] % 16
  {
    if i >= 2 {
      NibblesAt(bs[1..], i - 2);
    }
  }

  /** Comparing whole bytes and comparing their nibbles is the same order. */
  lemma {:induction false} NibbleOrder(a: Bytes, b: Bytes)
    ensures LexLess(a, b) <==> LexLess(NibblesOf(a), NibblesOf(b))
  {
    if a != [] && b != [] {
      NibbleOrder(a[1..], b[1..]);
      var x, y := NibblesOf(a), NibblesOf(b);
      assert x[1..][1..] == NibblesOf(a[1..]) && y[1..][1..] == NibblesOf(b[1..]);
      assert x[1..][0] == a[0] % 16 && y[1..][0] == b[0] % 16;
    }
  }

  lemma {:induction false} LexTotal(a: seq<int>, b: seq<int>)
    ensures LexLess(a, b) || a == b || LexLess(b, a)
  {
    if a != [] && b != [] && a[0] == b[0] {
      LexTotal(a[1..], b[1..]);
      assert a == [a[0]] + a[1..] && b == [b[0]] + b[1..];
    }
  }

  lemma {:induction false} LexTransitive(a: seq<int>, b: seq<int>, c: seq<int>)
    requires LexLess(a, b) && LexLess(b, c)
    ensures LexLess(a, c)
  {
    if a != [] && a[0] == b[0] == c[0] {
      LexTransitive(a[1..], b[1..], c[1..]);
    }
  }

  lemma {:induction false} LexIrreflexive(a: seq<int>)
    ensures !LexLess(a, a)
  {
    if a != [] {
      LexIrreflexive(a[1..]);
    }
  }

}
