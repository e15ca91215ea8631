/** Hex-prefix paths: the TypeScript writer and the strict Rust reader
    (Appendix C of the Ethereum Yellow Paper). */
module HexPrefix {
  import opened Prelude

  function Byte(high: nibble, low: nibble): byte {
    16 * (high as int) + low
  }

  /** Packs an even number of nibbles two to a byte. */
  function Pack(ns: Nibbles): Bytes
    requires |ns| % 2 == 0
  {
    if ns == [] then [] else [Byte(ns[0], ns[1])] + Pack(ns[2..])
  }

  function Compact(path: Nibbles, leaf: bool): Bytes {
    var flag := if leaf then 2 else 0;
    if |path| % 2 == 1 then [Byte(flag + 1, path[0])] + Pack(path[1..])
    else [Byte(flag, 0)] + Pack(path)
  }

  /** The writer's loop over pairs of nibbles. */
  method WriteCompact(path: Nibbles, leaf: bool) returns (out: Bytes)
    ensures out == Compact(path, leaf)
  {
    var flag := if leaf then 2 else 0;
    var odd := |path| % 2 == 1;
    var rest: Nibbles := if odd then path[1..] else path;
    out := [if odd then Byte(flag + 1, path[0]) else Byte(flag, 0)];
    var index := 0;
    while index < |rest|
      invariant 0 <= index <= |rest| && index % 2 == 0 && |rest| % 2 == 0
      invariant out + Pack(rest[index..]) == Compact(path, leaf)
    {
      assert rest[index..][2..] == rest[index + 2..];
      assert Pack(rest[index..]) == [Byte(rest[index], rest[index + 1])] + Pack(rest[index + 2..]);
      out := out + [Byte(rest[index], rest[index + 1])];
      index := index + 2;
    }
  }

  /** A path borrowed from the bytes of a node. */
  datatype Path = Path(bytes: Bytes, offset: nat, len: nat, leaf: bool) {
    predicate Valid() {
      offset + len == 2 * |bytes|
    }

    function Nibbles(): (ns: Nibbles)
      requires Valid()
      ensures |ns| == len
    {
      NibblesOf(bytes)[offset..]
    }

    /** Whether the path is a prefix of the key at `position`. */
    predicate Matches(key: Bytes, position: nat, keyLen: nat)
      requires Valid() && position <= keyLen == 2 * |key|
    {
      && len <= keyLen - position
      && forall i :: 0 <= i < len ==> Agrees(key, position, i)
    }

    predicate Agrees(key: Bytes, position: nat, i: nat)
      requires Valid() && i < len && position + i < 2 * |key|
    {
      NibbleAt(bytes, offset + i) == NibbleAt(key, position + i)
    }
  }

  function NibbleAt(bytes: Bytes, position: nat): nibble
    requires position < 2 * |bytes|
  {
    if position % 2 == 0 then bytes[position / 2] / 16 else bytes[position / 2] % 16
  }

  /** The reader. An extension must advance, a leaf may have an empty path. */
  function ReadCompact(bytes: Bytes): (r: Option<Path>)
    ensures r.Some? ==> r.value.Valid() && (r.value.leaf || r.value.len > 0)
  {
    if bytes == [] then None
    else
      var flag := bytes[0] / 16;
      if flag > 3 || (flag % 2 == 0 && bytes[0] % 16 != 0) then None
      else
        var offset := 2 - flag % 2;
        var len := 2 * |bytes| - offset;
        var leaf := flag >= 2;
        if !leaf && len == 0 then None
        else Some(Path(bytes, offset, len, leaf))
  }

  lemma NibbleAtSuffix(bytes: Bytes, from: nat, i: nat)
    requires from + i < 2 * |bytes|
    ensures NibblesOf(bytes)[from..][i] == NibbleAt(bytes, from + i)
  {
    hide NibblesOf;
    NibblesAt(bytes, from + i);
  }

  lemma AgreesAt(path: Path, key: Bytes, position: nat, i: nat)
    requires path.Valid() && i < path.len && position + i < 2 * |key|
    ensures path.Agrees(key, position, i) <==> path.Nibbles()[i] == NibblesOf(key)[position..][i]
  {
    var x, y := NibblesOf(path.bytes)[path.offset..][i], NibblesOf(key)[position..][i];
    assert x == NibbleAt(path.bytes, path.offset + i) by {
      NibbleAtSuffix(path.bytes, path.offset, i);
    }
    assert y == NibbleAt(key, position + i) by {
      NibbleAtSuffix(key, position, i);
    }
  }

  predicate IsPrefix(a: Nibbles, b: Nibbles) {
    |a| <= |b| && forall i :: 0 <= i < |a| ==> a[i] == b[i]
  }

  lemma MatchesIsPrefix(path: Path, key: Bytes, position: nat)
    requires path.Valid() && position <= 2 * |key|
    ensures path.Matches(key, position, 2 * |key|) <==> path.Nibbles() <= NibblesOf(key)[position..]
  {
    var ns, rest := path.Nibbles(), NibblesOf(key)[position..];
    assert IsPrefix(ns, rest) <==> ns <= rest;
    if path.Matches(key, position, 2 * |key|) {
      forall i | 0 <= i < |ns| ensures ns[i] == rest[i] {
        assert path.Agrees(key, position, i);
        AgreesAt(path, key, position, i);
      }
    }
    if IsPrefix(ns, rest) {
      forall i | 0 <= i < path.len ensures path.Agrees(key, position, i) {
        AgreesAt(path, key, position, i);
      }
    }
  }

  lemma ByteHalves(high: nibble, low: nibble)
    ensures Byte(high, low) / 16 == high && Byte(high, low) % 16 == low
  {
  }

  lemma {:induction false} NibblesOfPack(ns: Nibbles)
    requires |ns| % 2 == 0
    ensures NibblesOf(Pack(ns)) == ns
  {
    if ns != [] {
      NibblesOfPack(ns[2..]);
      assert Pack(ns)[1..] == Pack(ns[2..]);
      ByteHalves(ns[0], ns[1]);
      assert ns == [ns[0], ns[1]] + ns[2..];
    }
  }

  lemma {:induction false} PackOfNibbles(bs: Bytes)
    ensures Pack(NibblesOf(bs)) == bs
  {
    if bs != [] {
      PackOfNibbles(bs[1..]);
      assert NibblesOf(bs)[2..] == NibblesOf(bs[1..]);
    }
  }

  /** Reading and writing paths are mutually inverse: a compact string is accepted with a given
      flag and nibble path exactly when it is what the writer emits for them. */
  lemma CompactCanonical(bytes: Bytes, ns: Nibbles, leaf: bool)
    ensures (var r := ReadCompact(bytes); r.Some? && r.value.leaf == leaf && r.value.Nibbles() == ns)
            <==> bytes == Compact(ns, leaf) && (leaf || ns != [])
  {
    if bytes == Compact(ns, leaf) {
      if |ns| % 2 == 1 {
        NibblesOfPack(ns[1..]);
        assert bytes[1..] == Pack(ns[1..]);
        assert NibblesOf(bytes)[1..] == ns;
      } else {
        NibblesOfPack(ns);
        assert bytes[1..] == Pack(ns);
        assert NibblesOf(bytes)[2..] == ns;
      }
    }
    var r := ReadCompact(bytes);
    if r.Some? && r.value.leaf == leaf && r.value.Nibbles() == ns {
      CompactOfRead(bytes);
    }
  }

  lemma CompactOfRead(bytes: Bytes)
    requires ReadCompact(bytes).Some?
    ensures Compact(ReadCompact(bytes).value.Nibbles(), ReadCompact(bytes).value.leaf) == bytes
  {
    var p := ReadCompact(bytes).value;
    var ns := p.Nibbles();
    PackOfNibbles(bytes[1..]);
    assert bytes == [bytes[0]] + bytes[1..];
    if p.offset == 1 {
      assert ns == [bytes[0] % 16] + NibblesOf(bytes[1..]);
      assert ns[1..] == NibblesOf(bytes[1..]);
    } else {
      assert ns == NibblesOf(bytes[1..]);
    }
  }

  lemma {:induction false} PackSize(ns: Nibbles)
    requires |ns| % 2 == 0
    ensures 2 * |Pack(ns)| == |ns|
  {
    if ns != [] {
      PackSize(ns[2..]);
    }
  }

  lemma CompactSize(ns: Nibbles, leaf: bool)
    ensures |Compact(ns, leaf)| == |ns| / 2 + 1
  {
    if |ns| % 2 == 1 {
      PackSize(ns[1..]);
    } else {
      PackSize(ns);
    }
  }
}
