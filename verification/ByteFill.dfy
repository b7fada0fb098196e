/** memset over an array of 32-bit cells. Cell c is the four bytes 4 * c, ..., 4 * c + 3, the lowest first. */
module ByteFill {
  import opened Common

  function Byte(w: nat, k: nat): byte
    requires k < 4
  {
    if k == 0 then w % 0x100
    else if k == 1 then w / 0x100 % 0x100
    else if k == 2 then w / 0x100 / 0x100 % 0x100
    else w / 0x100 / 0x100 / 0x100 % 0x100
  }

  function Join(b0: byte, b1: byte, b2: byte, b3: byte): (w: nat)
    ensures w < TWO_TO_32
    ensures Byte(w, 0) == b0 && Byte(w, 1) == b1 && Byte(w, 2) == b2 && Byte(w, 3) == b3
  {
    LowByte(b0, b1 + 0x100 * (b2 + 0x100 * b3));
    LowByte(b1, b2 + 0x100 * b3);
    LowByte(b2, b3);
    b0 + 0x100 * (b1 + 0x100 * (b2 + 0x100 * b3))
  }

  lemma LowByte(b: byte, rest: nat)
    ensures (b + 0x100 * rest) % 0x100 == b && (b + 0x100 * rest) / 0x100 == rest
  {
  }

  /** A cell is determined by its bytes. */
  lemma BytesOf(w: nat)
    requires w < TWO_TO_32
    ensures Join(Byte(w, 0), Byte(w, 1), Byte(w, 2), Byte(w, 3)) == w
  {
    var w1 := w / 0x100;
    var w2 := w1 / 0x100;
    var w3 := w2 / 0x100;
    assert w == 0x100 * w1 + Byte(w, 0) && w1 == 0x100 * w2 + Byte(w, 1) && w2 == 0x100 * w3 + Byte(w, 2);
    assert w3 < 0x100;
  }

  /** A store to one byte of a cell. */
  function WithByte(w: nat, k: nat, b: byte): nat
    requires k < 4
  {
    Join(if k == 0 then b else Byte(w, 0), if k == 1 then b else Byte(w, 1),
         if k == 2 then b else Byte(w, 2), if k == 3 then b else Byte(w, 3))
  }

  /** What cell c holds once the first `count` bytes of the array have been set, if it held w. */
  function CellAfter(w: nat, c: nat, fill: byte, count: nat): nat {
    Join(if 4 * c < count then fill else Byte(w, 0), if 4 * c + 1 < count then fill else Byte(w, 1),
         if 4 * c + 2 < count then fill else Byte(w, 2), if 4 * c + 3 < count then fill else Byte(w, 3))
  }

  lemma NextByte(w: nat, c: nat, fill: byte, n: nat)
    ensures CellAfter(w, c, fill, n + 1) ==
      if c == n / 4 then WithByte(CellAfter(w, c, fill, n), n % 4, fill) else CellAfter(w, c, fill, n)
  {
    assert n == 4 * (n / 4) + n % 4;
  }

  /** memset: the fill value is converted to a byte, and the size counts bytes. */
  method Memset(a: array<nat>, value: int, count: nat)
    requires count <= 4 * a.Length
    requires forall c :: 0 <= c < a.Length ==> a[c] < TWO_TO_32
    modifies a
    ensures forall c :: 0 <= c < a.Length ==> a[c] == CellAfter(old(a[c]), c, value % 0x100, count)
  {
    forall c | 0 <= c < a.Length
      ensures a[c] == CellAfter(a[c], c, value % 0x100, 0)
    {
      BytesOf(a[c]);
    }
    for n := 0 to count
      invariant forall c :: 0 <= c < a.Length ==> a[c] == CellAfter(old(a[c]), c, value % 0x100, n)
    {
      ghost var before := a[..];
      a[n / 4] := WithByte(a[n / 4], n % 4, value % 0x100);
      forall c | 0 <= c < a.Length
        ensures a[c] == CellAfter(old(a[c]), c, value % 0x100, n + 1)
      {
        NextByte(old(a[c]), c, value % 0x100, n);
        assert c != n / 4 ==> a[c] == before[c];
      }
    }
  }

  /** A cell behind the bytes that were set keeps its value. */
  lemma CellKept(w: nat, c: nat, fill: byte, count: nat)
    requires w < TWO_TO_32 && count <= 4 * c
    ensures CellAfter(w, c, fill, count) == w
  {
    BytesOf(w);
  }

  /** Whatever cell c held, it holds v afterwards. */
  ghost predicate Becomes(c: nat, fill: byte, count: nat, v: nat) {
    forall w: nat :: w < TWO_TO_32 ==> CellAfter(w, c, fill, count) == v
  }

  /** Setting `count` bytes to 0xFF makes cell c all ones, whatever it held, if and only if all four of its
      bytes are among them. */
  lemma AllOnesExactly(c: nat, count: nat)
    ensures Becomes(c, 0xFF, count, 0xFFFF_FFFF) <==> 4 * c + 4 <= count
  {
    if 4 * c + 4 <= count {
      assert Join(0xFF, 0xFF, 0xFF, 0xFF) == 0xFFFF_FFFF;
    } else {
      LastByteKept(c, count);
    }
  }

  lemma LastByteKept(c: nat, count: nat)
    requires 4 * c + 4 > count
    ensures CellAfter(0, c, 0xFF, count) != 0xFFFF_FFFF
  {
    assert Byte(CellAfter(0, c, 0xFF, count), 3) == Byte(0, 3);
  }
}
