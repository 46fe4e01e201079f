/**
 * Byte-addressed memory with little-endian 64-bit words, as the kernel sees
 * user memory when it writes signal frames and start-up stacks.
 */
module Memory {

  const WORDS := 0x1_0000_0000_0000_0000

  type Byte = x: int | 0 <= x < 256
  type U64 = x: int | 0 <= x < 0x1_0000_0000_0000_0000
  type Mem = int -> Byte

  function Load(m: Mem, a: int, n: nat): seq<Byte> {
    seq(n, i => m(a + i))
  }

  function Store(m: Mem, a: int, bs: seq<Byte>): Mem {
    k => if a <= k < a + |bs| then bs[k - a] else m(k)
  }

  lemma LoadStored(m: Mem, a: int, bs: seq<Byte>)
    ensures Load(Store(m, a, bs), a, |bs|) == bs
  {
  }

  /** A store leaves every range it does not meet as it was. */
  lemma LoadElsewhere(m: Mem, a: int, bs: seq<Byte>, b: int, n: nat)
    requires b + n <= a || a + |bs| <= b
    ensures Load(Store(m, a, bs), b, n) == Load(m, b, n)
  {
  }

  function WordBytes(w: U64): (b: seq<Byte>)
    ensures |b| == 8
  {
    var w1 := w / 256;
    var w2 := w1 / 256;
    var w3 := w2 / 256;
    var w4 := w3 / 256;
    var w5 := w4 / 256;
    var w6 := w5 / 256;
    var w7 := w6 / 256;
    [w % 256, w1 % 256, w2 % 256, w3 % 256, w4 % 256, w5 % 256, w6 % 256, w7]
  }

  function WordOf(b: seq<Byte>): U64
    requires |b| == 8
  {
    var w7: int := b[7];
    var w6: int := b[6] + 256 * w7;
    var w5: int := b[5] + 256 * w6;
    var w4: int := b[4] + 256 * w5;
    var w3: int := b[3] + 256 * w4;
    var w2: int := b[2] + 256 * w3;
    var w1: int := b[1] + 256 * w2;
    b[0] + 256 * w1
  }

  lemma WordRoundTrip(w: U64)
    ensures WordOf(WordBytes(w)) == w
  {
  }

  function Pack(ws: seq<U64>): (b: seq<Byte>)
    ensures |b| == 8 * |ws|
  {
    if ws == [] then [] else WordBytes(ws[0]) + Pack(ws[1..])
  }

  function Unpack(b: seq<Byte>): (ws: seq<U64>)
    requires |b| % 8 == 0
    ensures 8 * |ws| == |b|
  {
    if b == [] then [] else [WordOf(b[..8])] + Unpack(b[8..])
  }

  lemma {:induction false} PackRoundTrip(ws: seq<U64>)
    ensures Unpack(Pack(ws)) == ws
  {
    if ws != [] {
      var b := Pack(ws);
      assert b[..8] == WordBytes(ws[0]) && b[8..] == Pack(ws[1..]);
      WordRoundTrip(ws[0]);
      PackRoundTrip(ws[1..]);
    }
  }
}
