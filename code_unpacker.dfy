/** The code unpacker: turns the bytes of an archive into 12-bit codes.

    The archive is consumed three bytes at a time. A group of three bytes holds two
    codes; a final group of two bytes holds one code padded to 16 bits; a single
    leftover byte is corrupt input. */
module CodeUnpacker {
  import opened Results

  type Byte = bv8

  /** Number of distinct 12-bit codes. */
  const CodeLimit := 4096

  /** A code sequence every element of which fits in 12 bits. */
  predicate AllCodes(codes: seq<int>) {
    forall i :: 0 <= i < |codes| ==> 0 <= codes[i] < CodeLimit
  }

  // ---------------------------------------------------------------------------
  // Bit arithmetic of one group. The shifts and masks are those of `read_codes`,
  // computed on 16-bit values with Python's precedence (shifts bind tighter than
  // `&` and `|` there, the other way round in Dafny, hence the parentheses).
  // ---------------------------------------------------------------------------

  /** A byte is its high nibble times 16 plus its low nibble. */
  lemma Nibbles(b: Byte)
    ensures b as int / 16 == (b >> 4) as int
    ensures b as int % 16 == (b & 0xF) as int
  {
    var hi, lo := b >> 4, b & 0xF;
    assert b == hi * 16 + lo;
    assert hi < 16 && lo < 16;
    assert b as int == hi as int * 16 + lo as int;
  }

  lemma ScaledSum16(hi: bv16, lo: bv16)
    requires hi < 0x100 && lo < 0x10
    ensures (hi * 16 + lo) as int == hi as int * 16 + lo as int
  {}

  lemma ScaledSum256(hi: bv16, lo: bv16)
    requires hi < 0x10 && lo < 0x100
    ensures (hi * 256 + lo) as int == hi as int * 256 + lo as int
  {}

  /** The bits `FirstCode` keeps, read as a number. */
  lemma FirstCodeValue(b0: Byte, b1: Byte)
    ensures (((0xFF & (b0 as bv16)) << 4) | ((b1 as bv16) >> 4)) as int == b0 as int * 16 + b1 as int / 16
  {
    var w := ((0xFF & (b0 as bv16)) << 4) | ((b1 as bv16) >> 4);
    assert w == (b0 as bv16) * 16 + (b1 >> 4) as bv16;
    ScaledSum16(b0 as bv16, (b1 >> 4) as bv16);
    Nibbles(b1);
  }

  /** The low nibble of `hi` above the eight bits of `lo`, read as a number. */
  lemma LowNibbleValue(hi: Byte, lo: Byte)
    ensures ((0xFFF & ((hi as bv16) << 8)) | (lo as bv16)) as int == (hi as int % 16) * 256 + lo as int
  {
    var w := (0xFFF & ((hi as bv16) << 8)) | (lo as bv16);
    assert w == ((hi & 0xF) as bv16) * 256 + lo as bv16;
    ScaledSum256((hi & 0xF) as bv16, lo as bv16);
    Nibbles(hi);
  }

  /** First code of a full group: all eight bits of `b0`, then the top nibble of `b1`. */
  function FirstCode(b0: Byte, b1: Byte): (c: int)
    ensures 0 <= c < CodeLimit
    ensures c == b0 as int * 16 + b1 as int / 16
  {
    var w := ((0xFF & (b0 as bv16)) << 4) | ((b1 as bv16) >> 4);
    FirstCodeValue(b0, b1);
    w as int
  }

  /** Second code of a full group: the bottom nibble of `b1`, then all of `b2`. */
  function SecondCode(b1: Byte, b2: Byte): (c: int)
    ensures 0 <= c < CodeLimit
    ensures c == (b1 as int % 16) * 256 + b2 as int
  {
    var w := (0xFFF & ((b1 as bv16) << 8)) | (b2 as bv16);
    LowNibbleValue(b1, b2);
    w as int
  }

  /** The single code of a final two-byte group; the top nibble of `b0` is padding. */
  function PaddedCode(b0: Byte, b1: Byte): (c: int)
    ensures 0 <= c < CodeLimit
    ensures c == (b0 as int % 16) * 256 + b1 as int
  {
    var w := (0xFFF & ((b0 as bv16) << 8)) | (b1 as bv16);
    LowNibbleValue(b0, b1);
    w as int
  }

  // ---------------------------------------------------------------------------
  // The whole archive
  // ---------------------------------------------------------------------------

  /** Length of the code sequence unpacked from `n` well-formed bytes. */
  function CodeCount(n: nat): (count: nat) {
    2 * (n / 3) + (if n % 3 == 2 then 1 else 0)
  }

  lemma CodeCountStep(n: nat)
    requires n >= 3
    ensures CodeCount(n) == CodeCount(n - 3) + 2 && (n - 3) % 3 == n % 3
  {
    assert n / 3 == (n - 3) / 3 + 1;
  }

  /** The code sequence the archive `bytes` stands for, group by group from the front:
      it exists exactly when no single byte is left over, has `CodeCount` codes and
      every code fits in 12 bits. */
  function Unpacked(bytes: seq<Byte>): (r: Result<seq<int>>)
    ensures r.Success? <==> |bytes| % 3 != 1
    ensures r.Failure? ==> r.error == InvalidData
    ensures r.Success? ==> |r.value| == CodeCount(|bytes|) && AllCodes(r.value)
    decreases |bytes|
  {
    if |bytes| == 0 then Success([])
    else if |bytes| == 1 then Failure(InvalidData)
    else if |bytes| == 2 then Success([PaddedCode(bytes[0], bytes[1])])
    else
      CodeCountStep(|bytes|);
      match Unpacked(bytes[3..])
      case Failure(e) => Failure(e)
      case Success(rest) => Success([FirstCode(bytes[0], bytes[1]), SecondCode(bytes[1], bytes[2])] + rest)
  }

  /** Prepends `codes` to a successful outcome and leaves a failure alone. */
  function Prepend(codes: seq<int>, r: Result<seq<int>>): (s: Result<seq<int>>) {
    match r
    case Failure(e) => Failure(e)
    case Success(rest) => Success(codes + rest)
  }

  lemma PrependNothing(r: Result<seq<int>>)
    ensures Prepend([], r) == r
  {
    if r.Success? { assert [] + r.value == r.value; }
  }

  lemma PrependTwice(a: seq<int>, b: seq<int>, r: Result<seq<int>>)
    ensures Prepend(a, Prepend(b, r)) == Prepend(a + b, r)
  {
    if r.Success? { assert a + (b + r.value) == (a + b) + r.value; }
  }

  /** Reads the archive group by group, appending the codes of each group to a list;
      a leftover single byte abandons the whole read. */
  method ReadCodes(archive: seq<Byte>) returns (r: Result<seq<int>>)
    ensures r == Unpacked(archive)
  {
    var archiveCodes: seq<int> := [];
    var pos := 0;
    assert archive[pos..] == archive;
    PrependNothing(Unpacked(archive));
    while pos < |archive|
      invariant 0 <= pos <= |archive|
      invariant Unpacked(archive) == Prepend(archiveCodes, Unpacked(archive[pos..]))
      decreases |archive| - pos
    {
      var chunk := archive[pos..if pos + 3 <= |archive| then pos + 3 else |archive|];
      if |chunk| == 3 {
        var code1 := FirstCode(chunk[0], chunk[1]);
        var code2 := SecondCode(chunk[1], chunk[2]);
        assert archive[pos..][3..] == archive[pos + 3..];
        assert Unpacked(archive[pos..]) == Prepend([code1, code2], Unpacked(archive[pos + 3..]));
        PrependTwice(archiveCodes, [code1, code2], Unpacked(archive[pos + 3..]));
        archiveCodes := archiveCodes + [code1, code2];
      } else if |chunk| == 2 {
        var code := PaddedCode(chunk[0], chunk[1]);
        assert archive[pos + 2..] == [] && [code] + [] == [code];
        assert Unpacked(archive[pos..]) == Prepend([code], Unpacked(archive[pos + 2..]));
        PrependTwice(archiveCodes, [code], Unpacked(archive[pos + 2..]));
        archiveCodes := archiveCodes + [code];
      } else {
        return Failure(InvalidData);
      }
      pos := pos + |chunk|;
    }
    assert archiveCodes + [] == archiveCodes;
    return Success(archiveCodes);
  }

  // ---------------------------------------------------------------------------
  // Properties
  // ---------------------------------------------------------------------------

  /** Whole groups unpack independently of what follows them: the codes of `a` come
      first, in order, and the outcome of the rest decides success. */
  lemma {:induction false} UnpackConcat(a: seq<Byte>, b: seq<Byte>)
    requires |a| % 3 == 0
    ensures Unpacked(a) .Success?
    ensures Unpacked(a + b) == Prepend(Unpacked(a).value, Unpacked(b))
    decreases |a|
  {
    if |a| == 0 {
      assert a + b == b;
      PrependNothing(Unpacked(b));
    } else {
      assert (a + b)[3..] == a[3..] + b;
      UnpackConcat(a[3..], b);
      var head := [FirstCode(a[0], a[1]), SecondCode(a[1], a[2])];
      if Unpacked(b).Success? {
        assert head + (Unpacked(a[3..]).value + Unpacked(b).value)
            == (head + Unpacked(a[3..]).value) + Unpacked(b).value;
      }
    }
  }

  /** A full group yields exactly two codes, in order; example: AB CD EF gives ABC, DEF. */
  lemma FullGroup(b0: Byte, b1: Byte, b2: Byte, rest: seq<Byte>)
    ensures Unpacked([b0, b1, b2] + rest)
         == Prepend([b0 as int * 16 + b1 as int / 16, (b1 as int % 16) * 256 + b2 as int], Unpacked(rest))
  {
    assert ([b0, b1, b2] + rest)[3..] == rest;
  }

  /** AB CD EF gives ABC then DEF; a final 0A BC gives 0ABC; a final 7A BC gives 0ABC
      too, and a lone byte gives nothing but the error. */
  lemma UnpackExamples()
    ensures Unpacked([0xAB, 0xCD, 0xEF]) == Success([0xABC, 0xDEF])
    ensures Unpacked([0x0A, 0xBC]) == Success([0xABC])
    ensures Unpacked([0x7A, 0xBC]) == Success([0xABC])
    ensures Unpacked([0xAB, 0xCD, 0xEF, 0x01]) == Failure(InvalidData)
  {
    var group: seq<Byte> := [0xAB, 0xCD, 0xEF];
    FullGroup(0xAB, 0xCD, 0xEF, []);
    assert group + [] == group;
    assert Unpacked(group) == Prepend([0xABC, 0xDEF], Success([]));
    assert [0xABC, 0xDEF] + [] == [0xABC, 0xDEF];
  }

  lemma UnpackGroup(b0: Byte, b1: Byte, b2: Byte, rest: seq<Byte>)
    ensures Unpacked([b0, b1, b2] + rest) == Prepend([FirstCode(b0, b1), SecondCode(b1, b2)], Unpacked(rest))
  {
    assert ([b0, b1, b2] + rest)[3..] == rest;
  }

  /** A leftover byte after whole groups is rejected, whatever the groups held. */
  lemma {:induction false} DanglingByte(a: seq<Byte>, b: Byte)
    requires |a| % 3 == 0
    ensures Unpacked(a + [b]) == Failure(InvalidData)
  {
  }

  /** Only the low nibble of the padding byte of a final two-byte group matters. */
  lemma {:induction false} PaddingNibbleIgnored(a: seq<Byte>, b0: Byte, b1: Byte)
    requires |a| % 3 == 0
    ensures Unpacked(a + [b0, b1]) == Unpacked(a + [b0 & 0x0F, b1])
    ensures Unpacked(a + [b0, b1]).value[|Unpacked(a).value|] == (b0 as int % 16) * 256 + b1 as int
  {
    UnpackConcat(a, [b0, b1]);
    UnpackConcat(a, [b0 & 0x0F, b1]);
    Nibbles(b0);
    Nibbles(b0 & 0x0F);
    assert (b0 & 0x0F) & 0xF == b0 & 0xF;
  }

  /** The three bytes a compatible encoder writes for the codes `c1`, `c2`. */
  function GroupBytes(c1: int, c2: int): (g: seq<Byte>)
    requires 0 <= c1 < CodeLimit && 0 <= c2 < CodeLimit
    ensures |g| == 3
  {
    [ToByte(c1 / 16), ToByte((c1 % 16) * 16 + c2 / 256), ToByte(c2 % 256)]
  }

  /** The two bytes a compatible encoder writes for a lone last code `c`. */
  function LoneBytes(c: int): (g: seq<Byte>)
    requires 0 <= c < CodeLimit
    ensures |g| == 2
  {
    [ToByte(c / 256), ToByte(c % 256)]
  }

  lemma Doubled(h: Byte, bit: Byte)
    requires h < 128 && bit < 2
    ensures (h * 2 + bit) as int == h as int * 2 + bit as int
  {}

  /** The byte whose value is `x`, built bit by bit. */
  function ToByte(x: int): (b: Byte)
    requires 0 <= x < 256
    ensures b as int == x
    decreases x
  {
    if x == 0 then 0
    else
      var h := ToByte(x / 2);
      var bit: Byte := if x % 2 == 0 then 0 else 1;
      Doubled(h, bit);
      h * 2 + bit
  }

  lemma DivMod16(m: int, q: int, r: int)
    requires 0 <= r < 16 && m == q * 16 + r
    ensures m / 16 == q && m % 16 == r
  {}

  /** The three bytes that carry `c1` and `c2` unpack to `c1` and `c2`. */
  lemma GroupRoundTrip(c1: int, c2: int)
    requires 0 <= c1 < CodeLimit && 0 <= c2 < CodeLimit
    ensures var g := GroupBytes(c1, c2); FirstCode(g[0], g[1]) == c1 && SecondCode(g[1], g[2]) == c2
  {
    var q1, r1, q2, r2 := c1 / 16, c1 % 16, c2 / 256, c2 % 256;
    var m := r1 * 16 + q2;
    DivMod16(m, r1, q2);
    assert c1 == q1 * 16 + r1;
    assert c2 == q2 * 256 + r2;
  }

  /** The two bytes that carry a lone code `c` unpack to `c`. */
  lemma LoneRoundTrip(c: int)
    requires 0 <= c < CodeLimit
    ensures var g := LoneBytes(c); PaddedCode(g[0], g[1]) == c
  {
    var q, r := c / 256, c % 256;
    assert q % 16 == q;
  }

  /** Packs 12-bit codes into bytes the way a compatible encoder does: two codes per
      three bytes, a last odd code in two bytes with a zero high nibble. */
  function Packed(codes: seq<int>): (bytes: seq<Byte>)
    requires AllCodes(codes)
    decreases |codes|
  {
    if |codes| == 0 then []
    else if |codes| == 1 then LoneBytes(codes[0])
    else GroupBytes(codes[0], codes[1]) + Packed(codes[2..])
  }

  /** Two more codes in front of a tail that round-trips still round-trip. */
  lemma UnpackPackedGroup(codes: seq<int>)
    requires AllCodes(codes) && |codes| >= 2
    requires Unpacked(Packed(codes[2..])) == Success(codes[2..])
    ensures Unpacked(Packed(codes)) == Success(codes)
  {
    SplitTwo(codes);
    var g, tail := GroupBytes(codes[0], codes[1]), Packed(codes[2..]);
    assert Packed(codes) == [g[0], g[1], g[2]] + tail;
    UnpackGroup(g[0], g[1], g[2], tail);
    GroupRoundTrip(codes[0], codes[1]);
  }

  lemma SplitTwo(codes: seq<int>)
    requires |codes| >= 2
    ensures [codes[0], codes[1]] + codes[2..] == codes
  {}

  /** Unpacking inverts packing: every sequence of 12-bit codes comes back unchanged. */
  lemma {:induction false} UnpackPacked(codes: seq<int>)
    requires AllCodes(codes)
    ensures Unpacked(Packed(codes)) == Success(codes)
    decreases |codes|
  {
    if |codes| == 1 {
      LoneRoundTrip(codes[0]);
      assert codes == [codes[0]];
    } else if |codes| >= 2 {
      UnpackPacked(codes[2..]);
      UnpackPackedGroup(codes);
    }
  }
}
