/** Sequences of ABI words and the reader that advances over them. */
module WordReaders {
  import opened Prelude
  import opened Uint
  import opened AbiWords
  import BigEndian

  function Flatten(ws: seq<Word>): (bs: Bytes)
    ensures |bs| == 32 * |ws|
  {
    if ws == [] then [] else ws[0] + Flatten(ws[1..])
  }

  function WordAt(data: Bytes, pos: nat, k: nat): Word
    requires pos + 32 * k + 32 <= |data|
  {
    data[pos + 32 * k..pos + 32 * k + 32]
  }

  /** The words stand at this position. */
  ghost predicate At(data: Bytes, pos: nat, ws: seq<Word>) {
    pos + 32 * |ws| <= |data| && forall k :: 0 <= k < |ws| ==> WordAt(data, pos, k) == ws[k]
  }

  lemma AtConcat(data: Bytes, pos: nat, a: seq<Word>, b: seq<Word>)
    ensures At(data, pos, a + b) <==> At(data, pos, a) && At(data, pos + 32 * |a|, b)
  {
    if At(data, pos, a + b) {
      forall k | 0 <= k < |b| ensures WordAt(data, pos + 32 * |a|, k) == b[k] {
        assert WordAt(data, pos, |a| + k) == (a + b)[|a| + k];
      }
      forall k | 0 <= k < |a| ensures WordAt(data, pos, k) == a[k] {
        assert WordAt(data, pos, k) == (a + b)[k];
      }
    }
    if At(data, pos, a) && At(data, pos + 32 * |a|, b) {
      forall k | 0 <= k < |a + b| ensures WordAt(data, pos, k) == (a + b)[k] {
        if k >= |a| {
          assert WordAt(data, pos + 32 * |a|, k - |a|) == b[k - |a|];
        }
      }
    }
  }

  lemma {:induction false} FlattenAt(ws: seq<Word>, data: Bytes)
    requires |data| == 32 * |ws|
    ensures data == Flatten(ws) <==> At(data, 0, ws)
  {
    if ws != [] {
      var rest := data[32..];
      FlattenAt(ws[1..], rest);
      assert data == data[..32] + rest;
      assert ws == [ws[0]] + ws[1..];
      AtConcat(data, 0, [ws[0]], ws[1..]);
      Shifted(data, ws[1..]);
      assert At(data, 0, [ws[0]]) <==> WordAt(data, 0, 0) == ws[0];
    }
  }

  lemma Shifted(data: Bytes, ws: seq<Word>)
    requires |data| >= 32
    ensures At(data, 32, ws) <==> At(data[32..], 0, ws)
  {
    forall k | 0 <= k && 32 + 32 * k + 32 <= |data| ensures WordAt(data, 32, k) == WordAt(data[32..], 0, k) {
    }
  }

  // ----- lists of addresses -----

  function AddressWords(addresses: seq<Address>): (ws: seq<Word>)
    ensures |ws| == |addresses|
  {
    seq(|addresses|, i requires 0 <= i < |addresses| => AddressWord(addresses[i]))
  }

  function AddressesOf(data: Bytes, pos: nat, n: nat): Result<seq<Address>, CoreError>
    requires pos + 32 * n <= |data|
    decreases n
  {
    if n == 0 then Ok([])
    else
      var front :- AddressesOf(data, pos, n - 1);
      var last :- DecodeAddress(WordAt(data, pos, n - 1));
      Ok(front + [last])
  }

  lemma {:induction false} AddressesCanonical(data: Bytes, pos: nat, n: nat, addresses: seq<Address>)
    requires pos + 32 * n <= |data|
    ensures AddressesOf(data, pos, n) == Ok(addresses) <==>
            |addresses| == n && At(data, pos, AddressWords(addresses))
  {
    hide DecodeAddress;
    hide AddressWord;
    if n > 0 {
      if |addresses| == n {
        var front, last := addresses[..n - 1], addresses[n - 1];
        AddressesCanonical(data, pos, n - 1, front);
        AddressCanonical(WordAt(data, pos, n - 1), last);
        assert addresses == front + [last];
        assert AddressWords(addresses) == AddressWords(front) + [AddressWord(last)];
        AtConcat(data, pos, AddressWords(front), [AddressWord(last)]);
        OneWord(data, pos, n - 1, AddressWord(last));
      }
      AddressCount(data, pos, n - 1);
    }
  }

  lemma {:induction false} AddressCount(data: Bytes, pos: nat, n: nat)
    requires pos + 32 * n <= |data|
    ensures AddressesOf(data, pos, n).Ok? ==> |AddressesOf(data, pos, n).value| == n
  {
    if n > 0 {
      AddressCount(data, pos, n - 1);
    }
  }

  lemma OneWord(data: Bytes, pos: nat, k: nat, w: Word)
    requires pos + 32 * k + 32 <= |data|
    ensures At(data, pos + 32 * k, [w]) <==> WordAt(data, pos, k) == w
  {
    assert WordAt(data, pos + 32 * k, 0) == WordAt(data, pos, k);
  }

  // ----- lists of raw words -----

  function WordsOf(data: Bytes, pos: nat, n: nat): (ws: seq<Word>)
    requires pos + 32 * n <= |data|
    ensures |ws| == n && At(data, pos, ws)
  {
    seq(n, k requires 0 <= k < n => WordAt(data, pos, k))
  }

  // ----- the reader -----

  class WordReader {
    var data: Bytes
    var position: nat

    constructor (data: Bytes)
      ensures this.data == data && position == 0
    {
      this.data := data;
      position := 0;
    }

    ghost predicate Room(words: nat)
      reads this
    {
      position + 32 * words <= |data|
    }

    /** The next word where one is left. */
    method Take() returns (w: Word)
      requires Room(1)
      modifies this`position
      ensures w == WordAt(data, old(position), 0) && position == old(position) + 32
    {
      w := data[position..position + 32];
      position := position + 32;
    }

    /** The next word; at the end the reader stays where it is. */
    method Word() returns (r: Result<Word, CoreError>)
      modifies this`position
      ensures old(Room(1)) ==> r == Ok(WordAt(data, old(position), 0)) && position == old(position) + 32
      ensures !old(Room(1)) ==> r == Err(CoreError.Length) && position == old(position)
    {
      if position + 32 > |data| {
        return Err(CoreError.Length);
      }
      var w := Take();
      r := Ok(w);
    }

    method Address() returns (r: Result<Address, CoreError>)
      requires Room(1)
      modifies this`position
      ensures r == DecodeAddress(WordAt(data, old(position), 0)) && position == old(position) + 32
    {
      var word := Take();
      r := DecodeAddress(word);
    }

    method U8() returns (r: Result<byte, CoreError>)
      requires Room(1)
      modifies this`position
      ensures r == U8Of(WordAt(data, old(position), 0)) && position == old(position) + 32
    {
      var word := Take();
      r := U8Of(word);
    }

    method U24() returns (r: Result<u32, CoreError>)
      requires Room(1)
      modifies this`position
      ensures r == U24Of(WordAt(data, old(position), 0)) && position == old(position) + 32
    {
      var word := Take();
      r := U24Of(word);
    }

    method U64() returns (r: Result<u64, CoreError>)
      requires Room(1)
      modifies this`position
      ensures r == U64Of(WordAt(data, old(position), 0)) && position == old(position) + 32
    {
      var word := Take();
      r := U64Of(word);
    }

    method Int24() returns (r: Result<i32, CoreError>)
      requires Room(1)
      modifies this`position
      ensures r == Int24Of(WordAt(data, old(position), 0)) && position == old(position) + 32
    {
      var word := Take();
      r := Int24Of(word);
    }

    method Addresses(n: nat) returns (r: Result<seq<Address>, CoreError>)
      requires Room(n)
      modifies this`position
      ensures r == AddressesOf(data, old(position), n)
      ensures r.Ok? ==> position == old(position) + 32 * n
    {
      ghost var start := position;
      var out: seq<Address> := [];
      var i := 0;
      while i < n
        invariant i <= n && position == start + 32 * i
        invariant AddressesOf(data, start, i) == Ok(out)
      {
        assert WordAt(data, position, 0) == WordAt(data, start, i);
        var next := Address();
        if next.Err? {
          FirstBadAddress(data, start, i, n);
          return Err(next.error);
        }
        out := out + [next.value];
        i := i + 1;
      }
      r := Ok(out);
    }

    method Words(n: nat) returns (out: seq<Word>)
      requires Room(n)
      modifies this`position
      ensures out == WordsOf(data, old(position), n) && position == old(position) + 32 * n
    {
      ghost var start := position;
      out := [];
      var i := 0;
      while i < n
        invariant i <= n && position == start + 32 * i
        invariant out == WordsOf(data, start, i)
      {
        assert WordAt(data, position, 0) == WordAt(data, start, i);
        var word := Take();
        out := out + [word];
        i := i + 1;
      }
    }
  }

  // ----- machine integers in words -----

  function U8Of(w: Word): Result<byte, CoreError> {
    var word :- DecodeUint(w, 1);
    UintWidth(w, 1);
    BigEndian.PowersOf256();
    Ok(WordValue(word))
  }

  function U24Of(w: Word): Result<u32, CoreError> {
    var word :- DecodeUint(w, 3);
    UintWidth(w, 3);
    BigEndian.PowersOf256();
    Ok(WordValue(word))
  }

  function U64Of(w: Word): Result<u64, CoreError> {
    var word :- DecodeUint(w, 8);
    UintWidth(w, 8);
    BigEndian.PowersOf256();
    Ok(WordValue(word))
  }

  function Int24Of(w: Word): Result<i32, CoreError> {
    var v :- DecodeSigned(w, 3);
    SignedCanonical(w, 3, v);
    Int24Range(v);
    Ok(v)
  }

  lemma Int24Range(v: int)
    ensures InSigned(v, 3) <==> -0x80_0000 <= v < 0x80_0000
  {
    BigEndian.PowersOf256();
  }

  lemma U8Canonical(w: Word, n: byte)
    ensures U8Of(w) == Ok(n) <==> w == UintWord(n)
  {
    BigEndian.PowersOf256();
    UintCanonical(w, 1, n);
  }

  lemma U24Canonical(w: Word, n: u32)
    ensures U24Of(w) == Ok(n) <==> n <= 0xff_ffff && w == UintWord(n)
  {
    BigEndian.PowersOf256();
    UintCanonical(w, 3, n);
  }

  lemma U64Canonical(w: Word, n: u64)
    ensures U64Of(w) == Ok(n) <==> w == UintWord(n)
  {
    BigEndian.PowersOf256();
    UintCanonical(w, 8, n);
  }

  lemma Int24Canonical(w: Word, v: i32)
    ensures Int24Of(w) == Ok(v) <==> InSigned(v, 3) && w == SignedWord(v, 3)
  {
    SignedCanonical(w, 3, v);
  }

  lemma {:induction false} FirstBadAddress(data: Bytes, pos: nat, i: nat, n: nat)
    requires i < n && pos + 32 * n <= |data|
    requires AddressesOf(data, pos, i).Ok? && DecodeAddress(WordAt(data, pos, i)).Err?
    ensures AddressesOf(data, pos, n) == Err(DecodeAddress(WordAt(data, pos, i)).error)
  {
    if i < n - 1 {
      FirstBadAddress(data, pos, i, n - 1);
    }
  }
}
