/** Byte-level wire form of the file-transfer protocol: big-endian integers
    (struct formats '!I', '!Q' and '!B'), the file header and the progress marker. */
module Wire {

  newtype byte = b: int | 0 <= b < 256

  /** Python's min on two integers. */
  function Min(a: int, b: int): int
  {
    if a <= b then a else b
  }

  lemma {:induction false} MulMonotone(a: nat, b: nat, n: nat)
    requires a <= b
    ensures a * n <= b * n
  {
    if n > 0 {
      MulMonotone(a, b, n - 1);
      assert a * n == a * (n - 1) + a && b * n == b * (n - 1) + b;
    }
  }

  lemma DivMonotone(x: nat, y: nat, n: nat)
    requires x <= y && n > 0
    ensures x / n <= y / n
  {
    if x / n > y / n {
      MulMonotone(y / n + 1, x / n, n);
      assert false;
    }
  }

  lemma DivOfMultiple(k: nat, n: nat)
    requires n > 0
    ensures k * n / n == k
  {
    if k * n / n < k {
      MulMonotone(k * n / n + 1, k, n);
      assert false;
    }
  }

  /** 256^n, the number of values an n-byte unsigned integer can hold. */
  function Pow256(n: nat): (r: nat)
    ensures r >= 1
  {
    if n == 0 then 1 else 256 * Pow256(n - 1)
  }

  lemma Pow256Widths()
    ensures Pow256(4) == 0x1_0000_0000
    ensures Pow256(8) == 0x1_0000_0000_0000_0000
  {
    assert Pow256(2) == 0x1_0000;
    assert Pow256(4) == 256 * (256 * Pow256(2));
  }

  /** `value` packed big-endian into exactly `width` bytes. */
  function BigEndian(value: nat, width: nat): (r: seq<byte>)
    requires value < Pow256(width)
    ensures |r| == width
  {
    if width == 0 then []
    else
      assert value / 256 < Pow256(width - 1);
      BigEndian(value / 256, width - 1) + [(value % 256) as byte]
  }

  /** The unsigned integer a big-endian byte string denotes. */
  function FromBigEndian(s: seq<byte>): (value: nat)
    ensures value < Pow256(|s|)
  {
    if s == [] then 0
    else
      var high := FromBigEndian(s[..|s| - 1]);
      assert high * 256 <= (Pow256(|s| - 1) - 1) * 256;
      high * 256 + s[|s| - 1] as nat
  }

  lemma {:induction false} FromBigEndianOfBigEndian(value: nat, width: nat)
    requires value < Pow256(width)
    ensures FromBigEndian(BigEndian(value, width)) == value
  {
    if width > 0 {
      var s := BigEndian(value, width);
      assert s[..width - 1] == BigEndian(value / 256, width - 1);
      FromBigEndianOfBigEndian(value / 256, width - 1);
    }
  }

  lemma {:induction false} BigEndianOfFromBigEndian(s: seq<byte>)
    ensures BigEndian(FromBigEndian(s), |s|) == s
  {
    if s != [] {
      var init := s[..|s| - 1];
      var value := FromBigEndian(s);
      assert value / 256 == FromBigEndian(init) && value % 256 == s[|s| - 1] as nat;
      BigEndianOfFromBigEndian(init);
      assert s == init + [s[|s| - 1]];
    }
  }

  /** Both big-endian fields decode to the integer they encode, and nothing else does. */
  lemma BigEndianInjective(s: seq<byte>, t: seq<byte>)
    requires |s| == |t| && FromBigEndian(s) == FromBigEndian(t)
    ensures s == t
  {
    BigEndianOfFromBigEndian(s);
    BigEndianOfFromBigEndian(t);
  }

  /** What '!I' and '!Q' can pack: struct.pack raises for a longer name or a larger size. */
  predicate Encodable(name: seq<byte>, size: nat)
    ensures Encodable(name, size) <==> |name| < 0x1_0000_0000 && size < 0x1_0000_0000_0000_0000
  {
    Pow256Widths();
    |name| < Pow256(4) && size < Pow256(8)
  }

  /** Header: u32_be(|name|) ++ name ++ u64_be(size). */
  function EncodeHeader(name: seq<byte>, size: nat): (h: seq<byte>)
    requires Encodable(name, size)
    ensures |h| == 4 + |name| + 8
    ensures FromBigEndian(h[..4]) == |name|
    ensures h[4..4 + |name|] == name
    ensures FromBigEndian(h[4 + |name|..]) == size
  {
    FromBigEndianOfBigEndian(|name|, 4);
    FromBigEndianOfBigEndian(size, 8);
    var h := BigEndian(|name|, 4) + name + BigEndian(size, 8);
    assert h[..4] == BigEndian(|name|, 4);
    assert h[4 + |name|..] == BigEndian(size, 8);
    h
  }

  datatype HeaderParse =
    | Incomplete
    | Parsed(name: seq<byte>, size: nat, rest: seq<byte>)

  /** Extracts the header at the start of `data` once all 4 + length + 8 of its bytes are present. */
  function ParseHeader(data: seq<byte>): (r: HeaderParse)
    ensures r.Incomplete? <==> |data| < 4 || |data| < 4 + FromBigEndian(data[..4]) + 8
    ensures r.Parsed? ==> Encodable(r.name, r.size) && data == EncodeHeader(r.name, r.size) + r.rest
  {
    if |data| < 4 then Incomplete
    else
      var length := FromBigEndian(data[..4]);
      if |data| < 4 + length + 8 then Incomplete
      else
        var name := data[4..4 + length];
        var sizeField := data[4 + length..4 + length + 8];
        var r := Parsed(name, FromBigEndian(sizeField), data[4 + length + 8..]);
        assert Encodable(r.name, r.size);
        var h := EncodeHeader(r.name, r.size);
        BigEndianInjective(h[..4], data[..4]);
        BigEndianInjective(h[4 + length..], sizeField);
        assert data[..4] + name == data[..4 + length];
        assert data[..4 + length] + sizeField == data[..4 + length + 8];
        assert data == data[..4 + length + 8] + r.rest;
        r
  }

  lemma HeaderRoundTrip(name: seq<byte>, size: nat, rest: seq<byte>)
    requires Encodable(name, size)
    ensures ParseHeader(EncodeHeader(name, size) + rest) == Parsed(name, size, rest)
  {
    var data := EncodeHeader(name, size) + rest;
    assert data[..4] == EncodeHeader(name, size)[..4];
    var r := ParseHeader(data);
    assert r.Parsed?;
    assert EncodeHeader(r.name, r.size) + r.rest == EncodeHeader(name, size) + rest;
    assert |r.name| == |name|;
    assert r.name == data[4..4 + |name|] == name;
    assert r.rest == data[4 + |name| + 8..] == rest;
  }

  /** The 9 tag bytes "PROGRESS:". */
  const ProgressTag: seq<byte> := [0x50, 0x52, 0x4F, 0x47, 0x52, 0x45, 0x53, 0x53, 0x3A]

  /** Progress marker: the tag followed by one percent byte. */
  function EncodeMarker(percent: byte): (m: seq<byte>)
    ensures |m| == 10 && m[..9] == ProgressTag && m[9] == percent
  {
    ProgressTag + [percent]
  }

  datatype MarkerParse =
    | NoMarker
    | Marker(percent: byte, rest: seq<byte>)

  /** A marker is recognised only at the head of `data`, and only once its percent byte is present. */
  function ParseMarker(data: seq<byte>): (r: MarkerParse)
    ensures r.Marker? <==> |data| >= 10 && data[..9] == ProgressTag
    ensures r.Marker? ==> data == EncodeMarker(r.percent) + r.rest
  {
    if |data| >= 9 && data[..9] == ProgressTag && |data| >= 10 then
      assert data == data[..9] + [data[9]] + data[10..];
      Marker(data[9], data[10..])
    else NoMarker
  }

  lemma MarkerRoundTrip(percent: byte, rest: seq<byte>)
    ensures ParseMarker(EncodeMarker(percent) + rest) == Marker(percent, rest)
  {
    var data := EncodeMarker(percent) + rest;
    assert data[..9] == ProgressTag;
    assert data[10..] == rest;
  }

  /** A value below 256 packs as zero bytes followed by the value. */
  lemma {:induction false} BigEndianOfByte(value: nat, width: nat)
    requires value < 256 && width >= 1
    ensures Pow256(width) >= 256
    ensures BigEndian(value, width) == seq(width - 1, i => 0 as byte) + [value as byte]
  {
    if width > 1 {
      BigEndianOfByte(0, width - 1);
      BigEndianOfByte(value, width - 1);
      assert BigEndian(value, width) == BigEndian(0, width - 1) + [value as byte];
      assert seq(width - 2, i => 0 as byte) + [0 as byte] == seq(width - 1, i => 0 as byte);
    }
  }

  /** The header of the file "a.txt" of 3 bytes. */
  lemma ExampleHeader()
    ensures EncodeHeader([0x61, 0x2E, 0x74, 0x78, 0x74], 3)
         == [0, 0, 0, 5, 0x61, 0x2E, 0x74, 0x78, 0x74, 0, 0, 0, 0, 0, 0, 0, 3]
  {
    var name: seq<byte> := [0x61, 0x2E, 0x74, 0x78, 0x74];
    assert BigEndian(5, 4) == [0, 0, 0, 5] by {
      BigEndianOfByte(5, 4);
      assert seq(3, i => 0 as byte) == [0, 0, 0];
    }
    assert BigEndian(3, 8) == [0, 0, 0, 0, 0, 0, 0, 3] by {
      BigEndianOfByte(3, 8);
      assert seq(7, i => 0 as byte) == [0, 0, 0, 0, 0, 0, 0];
    }
    Pow256Widths();
    assert EncodeHeader(name, 3) == BigEndian(5, 4) + name + BigEndian(3, 8);
    ExampleHeaderBytes();
  }

  lemma ExampleHeaderBytes()
    ensures var length: seq<byte> := [0, 0, 0, 5];
      var name: seq<byte> := [0x61, 0x2E, 0x74, 0x78, 0x74];
      var size: seq<byte> := [0, 0, 0, 0, 0, 0, 0, 3];
      length + name + size == [0, 0, 0, 5, 0x61, 0x2E, 0x74, 0x78, 0x74, 0, 0, 0, 0, 0, 0, 0, 3]
  {
  }

  /** The progress percent after `sent` of `fileSize` bytes, as both sides compute it
      (an exact floor; the Python code computes it in floating point). */
  function Percent(sent: nat, fileSize: nat): (r: nat)
    requires fileSize > 0
  {
    100 * sent / fileSize
  }

  lemma PercentMonotone(a: nat, b: nat, fileSize: nat)
    requires a <= b && fileSize > 0
    ensures Percent(a, fileSize) <= Percent(b, fileSize)
  {
    DivMonotone(100 * a, 100 * b, fileSize);
  }

  lemma PercentBounds(sent: nat, fileSize: nat)
    requires fileSize > 0
    ensures sent <= fileSize ==> Percent(sent, fileSize) <= 100
    ensures sent < fileSize ==> Percent(sent, fileSize) < 100
    ensures Percent(fileSize, fileSize) == 100
  {
    if sent <= fileSize {
      PercentMonotone(sent, fileSize, fileSize);
    }
    DivOfMultiple(100, fileSize);
  }
}
