/** Big-endian integers in byte strings. */
module Codec {
  import opened Seq16

  type U32 = n: int | 0 <= n < 0x1_0000_0000

  datatype Result<+T> = Ok(value: T) | Err

  function Be16(n: U16): (b: Bytes)
    ensures |b| == 2
  {
    [n / 0x100, n % 0x100]
  }

  function Be32(n: U32): (b: Bytes)
    ensures |b| == 4
  {
    var m := n / 0x100;
    var h := m / 0x100;
    [h / 0x100, h % 0x100, m % 0x100, n % 0x100]
  }

  function Get16(b: Bytes, o: nat): U16
    requires o + 2 <= |b|
  {
    (b[o] as int) * 0x100 + b[o + 1]
  }

  function Get32(b: Bytes, o: nat): U32
    requires o + 4 <= |b|
  {
    (((b[o] as int) * 0x100 + b[o + 1]) * 0x100 + b[o + 2]) * 0x100 + b[o + 3]
  }

  /** The 32 bits at `o`, most significant byte first. */
  predicate Word(b: Bytes, o: nat, n: int) {
    o + 4 <= |b| && n == b[o] as int * 16777216 + b[o + 1] as int * 65536 + b[o + 2] as int * 256 + b[o + 3] as int
  }

  /** The 16 bits at `o`, most significant byte first. */
  predicate Half(b: Bytes, o: nat, n: int) {
    o + 2 <= |b| && n == b[o] as int * 256 + b[o + 1] as int
  }

  lemma WordRead(b: Bytes, o: nat)
    requires o + 4 <= |b|
    ensures Word(b, o, Get32(b, o))
  {
  }

  /** Two `put_u16` calls fill one word. */
  function Pair(hi: U16, lo: U16): U32 {
    (hi as int) * 0x1_0000 + lo
  }

  function Hi(w: U32): U16 { w / 0x1_0000 }

  function Lo(w: U32): U16 { w % 0x1_0000 }

  lemma PairIsTwoHalves(hi: U16, lo: U16)
    ensures Be32(Pair(hi, lo)) == Be16(hi) + Be16(lo)
    ensures Hi(Pair(hi, lo)) == hi && Lo(Pair(hi, lo)) == lo
  {
    var w, l := Pair(hi, lo), lo / 0x100;
    var m := w / 0x100;
    assert m == (hi as int) * 0x100 + l && m % 0x100 == l && m / 0x100 == hi;
  }

  // ---- words ----

  function Words(ws: seq<U32>): (b: Bytes)
    ensures |b| == 4 * |ws|
  {
    if ws == [] then [] else Be32(ws[0]) + Words(ws[1..])
  }

  lemma Get32OfBe32(n: U32, rest: Bytes)
    ensures Get32(Be32(n) + rest, 0) == n
  {
    var m := n / 0x100;
    var h := m / 0x100;
    assert h == (h / 0x100) * 0x100 + h % 0x100 && m == h * 0x100 + m % 0x100;
  }

  lemma Get32Shift(a: Bytes, b: Bytes, o: nat)
    requires o + 4 <= |b|
    ensures Get32(a + b, |a| + o) == Get32(b, o)
  {
  }

  /** Reading word `i` of an encoding gives word `i`. */
  lemma {:induction false} WordAt(ws: seq<U32>, i: nat)
    requires i < |ws|
    ensures Get32(Words(ws), 4 * i) == ws[i]
  {
    if i == 0 {
      Get32OfBe32(ws[0], Words(ws[1..]));
    } else {
      WordAt(ws[1..], i - 1);
      Get32Shift(Be32(ws[0]), Words(ws[1..]), 4 * (i - 1));
    }
  }

  /** `k` words from offset `o`. */
  function Read(b: Bytes, o: nat, k: nat): (ws: seq<U32>)
    requires o + 4 * k <= |b|
    ensures |ws| == k
    decreases k, b
  {
    if k == 0 then [] else [Get32(b, o)] + Read(b, o + 4, k - 1)
  }

  lemma {:induction false} ReadBack(ws: seq<U32>, from: nat, k: nat)
    requires from + k <= |ws|
    ensures Read(Words(ws), 4 * from, k) == ws[from..from + k]
    decreases k
  {
    if k > 0 {
      WordAt(ws, from);
      assert 4 * from + 4 == 4 * (from + 1);
      ReadBack(ws, from + 1, k - 1);
      assert ws[from..from + k] == [ws[from]] + ws[from + 1..from + 1 + (k - 1)];
    }
  }

  lemma ReadTail(ws: seq<U32>, from: nat)
    requires from <= |ws|
    ensures Read(Words(ws), 4 * from, |ws| - from) == ws[from..]
  {
    ReadBack(ws, from, |ws| - from);
    assert ws[from..from + (|ws| - from)] == ws[from..];
  }

  /** Reading on: the last word of a longer read. */
  lemma {:induction false} ReadSnoc(b: Bytes, o: nat, k: nat)
    requires o + 4 * (k + 1) <= |b|
    ensures Read(b, o, k + 1) == Read(b, o, k) + [Get32(b, o + 4 * k)]
    decreases k
  {
    if k > 0 {
      ReadSnoc(b, o + 4, k - 1);
      assert o + 4 + 4 * (k - 1) == o + 4 * k;
    }
  }

  lemma {:induction false} WordsConcat(a: seq<U32>, b: seq<U32>)
    ensures Words(a + b) == Words(a) + Words(b)
  {
    if a == [] {
      assert a + b == b;
    } else {
      assert (a + b)[1..] == a[1..] + b;
      WordsConcat(a[1..], b);
    }
  }

  // ---- the common RTCP header ----

  datatype Header = Header(padding: bool, count: Byte, packetType: Byte, length: U16) {
    function Size(): nat {
      (length + 1) * 4
    }
  }

  /** `0x80 | (count & 0x1F)`, the packet type, and the length in words minus one. */
  function HeaderBytes(count: Byte, packetType: Byte, length: U16): (b: Bytes)
    ensures |b| == 4
  {
    [0x80 + count % 0x20, packetType] + Be16(length)
  }

  /** The header at offset `o`; the two version bits must be 2, which puts the first byte in 0x80 .. 0xBF. */
  function HeaderAt(b: Bytes, o: nat): (r: Result<Header>)
    ensures r.Ok? ==> o + 4 <= |b| && r.value.count < 0x20
  {
    if o + 4 > |b| || b[o] < 0x80 || b[o] >= 0xC0 then Err
    else
      var padding := b[o] >= 0xA0;
      Ok(Header(padding, if padding then b[o] - 0xA0 else b[o] - 0x80, b[o + 1], Get16(b, o + 2)))
  }

  /** The same header written with shifts and masks on the first byte. */
  lemma HeaderBits(first: Byte)
    ensures first / 0x40 == 2 <==> 0x80 <= first < 0xC0
    ensures first / 0x40 == 2 ==> (first / 0x20 % 2 == 1 <==> first >= 0xA0)
    ensures first / 0x40 == 2 ==> first % 0x20 == if first >= 0xA0 then first - 0xA0 else first - 0x80
  {
  }

  /** Header parsing with the shifts and masks of the wire format. */
  method ReadHeader(b: Bytes, o: nat) returns (r: Result<Header>)
    ensures r == HeaderAt(b, o)
  {
    if o + 4 > |b| {
      return Err;
    }
    HeaderBits(b[o]);
    if b[o] / 0x40 != 2 {
      return Err;
    }
    r := Ok(Header(b[o] / 0x20 % 2 == 1, b[o] % 0x20, b[o + 1], Get16(b, o + 2)));
  }

  lemma HeaderRoundTrip(count: Byte, packetType: Byte, length: U16, rest: Bytes)
    requires count < 0x20
    ensures HeaderAt(HeaderBytes(count, packetType, length) + rest, 0) == Ok(Header(false, count, packetType, length))
  {
  }
}
