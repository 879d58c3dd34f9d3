/** Little-endian records: the layout shared by C structs without padding and Python's struct. */
module Packing {
  import opened Words

  /** The w bytes of a word, least significant first. */
  function LittleEndian(v: nat, w: nat): (bs: seq<u8>)
    ensures |bs| == w
  {
    if w == 0 then [] else [v % 0x100] + LittleEndian(v / 0x100, w - 1)
  }

  function FromLittleEndian(bs: seq<u8>): nat {
    if bs == [] then 0 else bs[0] + 0x100 * FromLittleEndian(bs[1..])
  }

  function Pow256(w: nat): nat {
    if w == 0 then 1 else 0x100 * Pow256(w - 1)
  }

  lemma {:induction false} LittleEndianRoundTrip(v: nat, w: nat)
    requires v < Pow256(w)
    ensures FromLittleEndian(LittleEndian(v, w)) == v
  {
    if w > 0 {
      LittleEndianRoundTrip(v / 0x100, w - 1);
      assert LittleEndian(v, w)[1..] == LittleEndian(v / 0x100, w - 1);
    }
  }

  /** The bytes taken by the first n fields of a record with field widths ws. */
  function Size(ws: seq<nat>, n: nat): nat
    requires n <= |ws|
    decreases n
  {
    if n == 0 then 0 else Size(ws, n - 1) + ws[n - 1]
  }

  /** The first n fields of a record, packed without padding. */
  function Pack(ws: seq<nat>, vs: seq<nat>, n: nat): (bs: seq<u8>)
    requires n <= |ws| == |vs|
    ensures |bs| == Size(ws, n)
  {
    if n == 0 then [] else Pack(ws, vs, n - 1) + LittleEndian(vs[n - 1], ws[n - 1])
  }

  /** The values of the first n fields of the record that starts at pos. */
  function Unpack(ws: seq<nat>, data: seq<u8>, pos: nat, n: nat): (vs: seq<nat>)
    requires n <= |ws| && pos + Size(ws, n) <= |data|
    ensures |vs| == n
  {
    if n == 0 then []
    else
      var at := pos + Size(ws, n - 1);
      Unpack(ws, data, pos, n - 1) + [FromLittleEndian(data[at..at + ws[n - 1]])]
  }

  ghost predicate Fits(ws: seq<nat>, vs: seq<nat>) {
    |ws| == |vs| && forall i :: 0 <= i < |ws| ==> vs[i] < Pow256(ws[i])
  }

  /** Unpacking finds the packed values, wherever in a file the record lies. */
  lemma {:induction false} UnpackPack(ws: seq<nat>, vs: seq<nat>, n: nat, data: seq<u8>, pos: nat)
    requires Fits(ws, vs) && n <= |ws| && pos + Size(ws, n) <= |data|
    requires data[pos..pos + Size(ws, n)] == Pack(ws, vs, n)
    ensures Unpack(ws, data, pos, n) == vs[..n]
    decreases n
  {
    if n > 0 {
      SplitSlice(data, pos, Pack(ws, vs, n - 1), LittleEndian(vs[n - 1], ws[n - 1]));
      LittleEndianRoundTrip(vs[n - 1], ws[n - 1]);
      UnpackPack(ws, vs, n - 1, data, pos);
    }
  }

  lemma SplitSlice(data: seq<u8>, pos: nat, a: seq<u8>, b: seq<u8>)
    requires pos + |a| + |b| <= |data| && data[pos..pos + |a| + |b|] == a + b
    ensures data[pos..pos + |a|] == a
    ensures data[pos + |a|..pos + |a| + |b|] == b
  {
    var s := data[pos..pos + |a| + |b|];
    assert s[..|a|] == a && s[|a|..] == b;
  }

  /** Each unpacked value is read at the offset of its field. */
  lemma {:induction false} UnpackAt(ws: seq<nat>, data: seq<u8>, pos: nat, n: nat, i: nat)
    requires i < n <= |ws| && pos + Size(ws, n) <= |data|
    ensures Size(ws, i) + ws[i] <= Size(ws, n)
    ensures var at := pos + Size(ws, i);
            Unpack(ws, data, pos, n)[i] == FromLittleEndian(data[at..at + ws[i]])
    decreases n
  {
    if i < n - 1 {
      UnpackAt(ws, data, pos, n - 1, i);
    }
  }
}
