/**
 * `get_apache_ocsp_struct`: the entry Apache's OCSP stapling cache expects, the expiry
 * time in microseconds packed as a native C `long`, a 0x01 byte, then the DER response.
 *
 * The native `long` is taken to be the LP64 little-endian one: eight bytes, two's
 * complement, least significant byte first.
 */
module OcspCache {
  import opened Outcomes

  type byte = x: int | 0 <= x < 256

  /** `struct.calcsize('l')`. */
  const LongBytes: nat := 8
  /** 2^64, the number of values a `long` can hold. */
  const LongModulus: int := 0x1_0000_0000_0000_0000
  const LongMin: int := -0x8000_0000_0000_0000
  const LongMax: int := 0x7FFF_FFFF_FFFF_FFFF
  /** The byte `b'\x01'.join` puts between the packed expiry and the response. */
  const Separator: byte := 1

  function Pow256(n: nat): (p: nat)
    ensures p > 0
  {
    if n == 0 then 1 else 256 * Pow256(n - 1)
  }

  lemma LongModulusIsPow256()
    ensures Pow256(LongBytes) == LongModulus
  {
  }

  /** `u` as `width` bytes, least significant first. */
  function LittleEndian(u: nat, width: nat): (bs: seq<byte>)
    requires u < Pow256(width)
    ensures |bs| == width
    decreases width
  {
    if width == 0 then [] else [u % 256] + LittleEndian(u / 256, width - 1)
  }

  /** The unsigned number whose little-endian bytes are `bs`. */
  function FromLittleEndian(bs: seq<byte>): (u: nat)
    ensures u < Pow256(|bs|)
  {
    if bs == [] then 0 else bs[0] + 256 * FromLittleEndian(bs[1..])
  }

  lemma {:induction false} FromLittleEndianInverse(u: nat, width: nat)
    requires u < Pow256(width)
    ensures FromLittleEndian(LittleEndian(u, width)) == u
    decreases width
  {
    if width > 0 {
      var bs := LittleEndian(u, width);
      assert bs[1..] == LittleEndian(u / 256, width - 1);
      FromLittleEndianInverse(u / 256, width - 1);
    }
  }

  lemma {:induction false} LittleEndianInverse(bs: seq<byte>)
    ensures LittleEndian(FromLittleEndian(bs), |bs|) == bs
  {
    if bs != [] {
      var u := FromLittleEndian(bs);
      var rest := FromLittleEndian(bs[1..]);
      assert u % 256 == bs[0] && u / 256 == rest;
      LittleEndianInverse(bs[1..]);
    }
  }

  /** `struct.pack('l', n)`, or the struct.error it raises when `n` does not fit. */
  function PackLong(n: int): (r: Result<seq<byte>>)
    ensures r.Ok? <==> LongMin <= n <= LongMax
    ensures r.Ok? ==> |r.value| == LongBytes
    ensures r.Err? ==> r.error == PackOutOfRange
  {
    LongModulusIsPow256();
    if LongMin <= n <= LongMax then
      Ok(LittleEndian(if n < 0 then n + LongModulus else n, LongBytes))
    else
      Err(PackOutOfRange)
  }

  /** `struct.unpack('l', bs)[0]`. */
  function UnpackLong(bs: seq<byte>): (n: int)
    requires |bs| == LongBytes
    ensures LongMin <= n <= LongMax
  {
    LongModulusIsPow256();
    var u := FromLittleEndian(bs);
    if u > LongMax then u - LongModulus else u
  }

  /** Unpacking gives back what was packed. */
  lemma PackUnpack(n: int)
    requires LongMin <= n <= LongMax
    ensures UnpackLong(PackLong(n).value) == n
  {
    LongModulusIsPow256();
    FromLittleEndianInverse(if n < 0 then n + LongModulus else n, LongBytes);
  }

  /** Every eight bytes are the packing of exactly one `long`. */
  lemma UnpackPack(bs: seq<byte>)
    requires |bs| == LongBytes
    ensures PackLong(UnpackLong(bs)) == Ok(bs)
  {
    LongModulusIsPow256();
    LittleEndianInverse(bs);
  }

  /** The expiry `ttl` seconds from `nowMicros` (`time.time()` in microseconds). */
  function ExpiryMicros(nowMicros: int, ttl: int): int
  {
    nowMicros + ttl * 1000000
  }

  /** `get_apache_ocsp_struct(ttl, ocsp_response)`. */
  function OcspStruct(nowMicros: int, ttl: int, response: seq<byte>): (r: Result<seq<byte>>)
    ensures var expiry := ExpiryMicros(nowMicros, ttl);
            r.Ok? <==> LongMin <= expiry <= LongMax
    ensures r.Err? ==> r.error == PackOutOfRange
    ensures r.Ok? ==> && |r.value| == LongBytes + 1 + |response|
                      && UnpackLong(r.value[..LongBytes]) == ExpiryMicros(nowMicros, ttl)
                      && r.value[LongBytes] == Separator
                      && r.value[LongBytes + 1..] == response
  {
    match PackLong(ExpiryMicros(nowMicros, ttl))
    case Err(e) => Err(e)
    case Ok(packed) =>
      PackUnpack(ExpiryMicros(nowMicros, ttl));
      var entry := packed + [Separator] + response;
      assert entry[..LongBytes] == packed;
      assert entry[LongBytes + 1..] == response;
      Ok(entry)
  }
}
