/** Fixed-width integers as bytes. */
module ByteOrder {
  type byte = x: int | 0 <= x < 0x100

  const TWO_24 := 0x100_0000
  const TWO_32 := 0x1_0000_0000

  function Be16(v: nat): (b: seq<byte>)
    ensures |b| == 2
  {
    [v / 0x100 % 0x100, v % 0x100]
  }

  function Le16(v: nat): (b: seq<byte>)
    ensures |b| == 2
  {
    [v % 0x100, v / 0x100 % 0x100]
  }

  /** The low three bytes, most significant first. */
  function Be24(v: nat): (b: seq<byte>)
    ensures |b| == 3
  {
    [v / 0x1_0000 % 0x100, v / 0x100 % 0x100, v % 0x100]
  }

  function Be32(v: nat): (b: seq<byte>)
    ensures |b| == 4
  {
    Be16(v / 0x1_0000) + Be16(v)
  }

  function Le32(v: nat): (b: seq<byte>)
    ensures |b| == 4
  {
    Le16(v) + Le16(v / 0x1_0000)
  }

  function ReadBe16(b: seq<byte>): nat
    requires |b| >= 2
  {
    (b[0] as nat) * 0x100 + b[1] as nat
  }

  function ReadLe16(b: seq<byte>): nat
    requires |b| >= 2
  {
    b[0] as nat + (b[1] as nat) * 0x100
  }

  function ReadBe24(b: seq<byte>): nat
    requires |b| >= 3
  {
    (b[0] as nat) * 0x1_0000 + (b[1] as nat) * 0x100 + b[2] as nat
  }

  function ReadBe32(b: seq<byte>): nat
    requires |b| >= 4
  {
    (b[0] as nat) * 0x100_0000 + (b[1] as nat) * 0x1_0000 + (b[2] as nat) * 0x100 + b[3] as nat
  }

  function ReadLe32(b: seq<byte>): nat
    requires |b| >= 4
  {
    b[0] as nat + (b[1] as nat) * 0x100 + (b[2] as nat) * 0x1_0000 + (b[3] as nat) * 0x100_0000
  }

  lemma RoundTrip16(v: nat, t: seq<byte>)
    requires v < 0x1_0000
    ensures ReadBe16(Be16(v) + t) == v && ReadLe16(Le16(v) + t) == v
  {
  }

  /** A 24-bit field keeps the low 24 bits. */
  lemma RoundTrip24(v: nat, t: seq<byte>)
    ensures ReadBe24(Be24(v) + t) == v % TWO_24
  {
    Low24(v);
    var b := Be24(v) + t;
    assert b[0] == Be24(v)[0] && b[1] == Be24(v)[1] && b[2] == Be24(v)[2];
  }

  lemma Low24(v: nat)
    ensures v % TWO_24 == v / 0x1_0000 % 0x100 * 0x1_0000 + v / 0x100 % 0x100 * 0x100 + v % 0x100
  {
    var hi := v / 0x1_0000;
    Low16(v);
    assert v == hi / 0x100 * TWO_24 + (hi % 0x100 * 0x1_0000 + v % 0x1_0000);
  }

  lemma Low16(v: nat)
    ensures v % 0x1_0000 == v / 0x100 % 0x100 * 0x100 + v % 0x100
  {
    var mid := v / 0x100;
    assert v == mid / 0x100 * 0x1_0000 + (mid % 0x100 * 0x100 + v % 0x100);
  }

  lemma RoundTrip32(v: nat, t: seq<byte>)
    requires v < TWO_32
    ensures ReadBe32(Be32(v) + t) == v && ReadLe32(Le32(v) + t) == v
  {
    Low32(v);
    var be, le := Be32(v) + t, Le32(v) + t;
    assert be[0] == Be32(v)[0] && be[1] == Be32(v)[1] && be[2] == Be32(v)[2] && be[3] == Be32(v)[3];
    assert le[0] == Le32(v)[0] && le[1] == Le32(v)[1] && le[2] == Le32(v)[2] && le[3] == Le32(v)[3];
  }

  lemma Low32(v: nat)
    requires v < TWO_32
    ensures var hi := v / 0x1_0000;
            v == hi / 0x100 % 0x100 * TWO_24 + hi % 0x100 * 0x1_0000 + v / 0x100 % 0x100 * 0x100 + v % 0x100
  {
    var hi := v / 0x1_0000;
    Low16(v);
    assert hi / 0x100 < 0x100 && hi == hi / 0x100 * 0x100 + hi % 0x100;
  }

  /** Big-endian numbers have their most significant byte first, little-endian ones last. */
  lemma SignificantFirst(v: nat)
    ensures v < 0x1_0000 ==> (Be16(v)[0] as int) * 0x100 + Be16(v)[1] as int == v
    ensures v < 0x1_0000 ==> Le16(v)[0] as int + (Le16(v)[1] as int) * 0x100 == v
    ensures v < TWO_24 ==> (Be24(v)[0] as int) * 0x1_0000 + (Be24(v)[1] as int) * 0x100 + Be24(v)[2] as int == v
    ensures v < TWO_32 ==>
              (Be32(v)[0] as int) * 0x100_0000 + (Be32(v)[1] as int) * 0x1_0000 + (Be32(v)[2] as int) * 0x100 + Be32(v)[3] as int == v
    ensures v < TWO_32 ==>
              Le32(v)[0] as int + (Le32(v)[1] as int) * 0x100 + (Le32(v)[2] as int) * 0x1_0000 + (Le32(v)[3] as int) * 0x100_0000 == v
  {
    if v < TWO_24 {
      Low24(v);
    }
    if v < TWO_32 {
      Low32(v);
    }
  }
}
