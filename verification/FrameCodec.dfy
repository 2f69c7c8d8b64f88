// packages/minidb/src/codec.ts: the record frame, its printer and its reader.
module FrameCodec {
  import opened Wrappers
  import opened Bytes
  import opened Crc32

  const MAGIC: bytes := [0x4d, 0x44]
  const TYPE_SET: byte := 1
  const TYPE_DEL: byte := 2
  const HEADER_SIZE: nat := 22
  const CRC_SIZE: nat := 4
  const MAX_KEY_LEN: nat := 0xffff
  const MAX_VAL_LEN: nat := 0xffff_ffff

  /** A decoded record. */
  datatype Frame = Frame(typ: byte, key: bytes, value: bytes, meta: Option<bytes>, expireAt: int)

  /** A record whose value is reported as a place in the file. */
  datatype FrameRef = FrameRef(
    typ: byte, key: bytes, meta: Option<bytes>, expireAt: int,
    frameOff: nat, valueOff: nat, valLen: nat, frameLen: nat)

  // ---- what a frame looks like on disk -------------------------------------

  /** Every field of a frame as stored; `stamp` holds the eight bytes of expireAt. */
  datatype Image = Image(typ: byte, flags: byte, stamp: bytes, key: bytes, value: bytes, meta: bytes)

  predicate Fits(i: Image) {
    |i.stamp| == 8 && |i.key| <= MAX_KEY_LEN && |i.value| <= MAX_VAL_LEN && |i.meta| <= MAX_VAL_LEN
  }

  function Header(i: Image): bytes {
    MAGIC + [i.typ, i.flags] + LE(|i.key|, 2) + LE(|i.value|, 4) + LE(|i.meta|, 4) + i.stamp
  }

  function Body(i: Image): bytes {
    Header(i) + i.key + i.value + i.meta
  }

  /** The whole frame: the trailer is the checksum of everything after the magic. */
  function Layout(i: Image): bytes {
    Body(i) + CrcBytes(Crc(Body(i)[2..]))
  }

  function Size(i: Image): nat {
    HEADER_SIZE + |i.key| + |i.value| + |i.meta| + CRC_SIZE
  }

  /** The record an image stands for: no meta bytes read back as no meta, and expireAt as the
      nearest double. */
  function Record(i: Image): Frame
    requires Fits(i)
  {
    Frame(i.typ, i.key, i.value, if i.meta == [] then None else Some(i.meta), ToNumber(FromInt64LE(i.stamp)))
  }

  // ---- the reader ----------------------------------------------------------

  function Field(buf: bytes, off: nat, k: nat): nat
    requires off + k <= |buf|
  {
    FromLE(buf[off..off + k])
  }

  lemma FieldOfLE(buf: bytes, off: nat, n: nat, k: nat)
    requires n < Pow256(k) && HasAt(buf, off, LE(n, k))
    ensures Field(buf, off, k) == n
  {
    LERoundTrip(n, k);
  }

  lemma LEOfField(buf: bytes, off: nat, k: nat)
    requires off + k <= |buf|
    ensures Field(buf, off, k) < Pow256(k) && HasAt(buf, off, LE(Field(buf, off, k), k))
  {
    FromLEBound(buf[off..off + k]);
    FromLERoundTrip(buf[off..off + k]);
  }

  predicate MagicAt(buf: bytes, i: nat) {
    i + 1 < |buf| && buf[i] == 0x4d && buf[i + 1] == 0x44
  }

  /** The length the header at pos announces. */
  function AnnouncedLen(buf: bytes, pos: nat): nat
    requires pos + HEADER_SIZE <= |buf|
  {
    HEADER_SIZE + Field(buf, pos + 4, 2) + Field(buf, pos + 6, 4) + Field(buf, pos + 10, 4) + CRC_SIZE
  }

  /** The length of the valid, complete frame at pos, if there is one. */
  function FrameLen(buf: bytes, pos: nat): (r: Option<nat>)
    ensures r.Some? ==> HEADER_SIZE + CRC_SIZE <= r.value && pos + r.value <= |buf|
  {
    if pos + HEADER_SIZE > |buf| then None
    else if buf[pos] != 0x4d || buf[pos + 1] != 0x44 then None
    else if Field(buf, pos + 4, 2) > MAX_KEY_LEN then None
    else
      var frameLen := AnnouncedLen(buf, pos);
      if frameLen < HEADER_SIZE + CRC_SIZE then None
      else if pos + frameLen > |buf| then None
      else if ReadCrc(buf[pos + frameLen - CRC_SIZE..pos + frameLen])
              != Crc(buf[pos + 2..pos + frameLen - CRC_SIZE]) then None
      else Some(frameLen)
  }

  /** The fields of a frame already known to be valid. */
  function ImageAt(buf: bytes, pos: nat): Image
    requires FrameLen(buf, pos).Some?
  {
    var k := pos + HEADER_SIZE;
    var v := k + Field(buf, pos + 4, 2);
    var m := v + Field(buf, pos + 6, 4);
    var e := m + Field(buf, pos + 10, 4);
    Image(buf[pos + 2], buf[pos + 3], buf[pos + 14..pos + 22], buf[k..v], buf[v..m], buf[m..e])
  }

  function FrameAt(buf: bytes, pos: nat): Frame
    requires FrameLen(buf, pos).Some?
  {
    var keyStart := pos + HEADER_SIZE;
    var keyLen, valLen, metaLen := Field(buf, pos + 4, 2), Field(buf, pos + 6, 4), Field(buf, pos + 10, 4);
    var metaStart := keyStart + keyLen + valLen;
    Frame(buf[pos + 2], buf[keyStart..keyStart + keyLen], buf[keyStart + keyLen..metaStart],
          if metaLen != 0 then Some(buf[metaStart..metaStart + metaLen]) else None,
          ToNumber(FromInt64LE(buf[pos + 14..pos + 22])))
  }

  function RefAt(buf: bytes, pos: nat): FrameRef
    requires FrameLen(buf, pos).Some?
  {
    var f := FrameAt(buf, pos);
    FrameRef(f.typ, f.key, f.meta, f.expireAt, pos, pos + HEADER_SIZE + |f.key|, |f.value|, FrameLen(buf, pos).value)
  }

  function ReadFrameAt(buf: bytes, pos: nat): Option<(Frame, nat)> {
    match FrameLen(buf, pos)
    case None => None
    case Some(n) => Some((FrameAt(buf, pos), n))
  }

  // ---- the reader accepts exactly the images -------------------------------

  ghost predicate HasHeader(buf: bytes, pos: nat, i: Image) {
    && HasAt(buf, pos, MAGIC + [i.typ, i.flags])
    && HasAt(buf, pos + 4, LE(|i.key|, 2))
    && HasAt(buf, pos + 6, LE(|i.value|, 4))
    && HasAt(buf, pos + 10, LE(|i.meta|, 4))
    && HasAt(buf, pos + 14, i.stamp)
  }

  ghost predicate HasPayload(buf: bytes, pos: nat, i: Image) {
    var k := pos + HEADER_SIZE;
    && HasAt(buf, k, i.key)
    && HasAt(buf, k + |i.key|, i.value)
    && HasAt(buf, k + |i.key| + |i.value|, i.meta)
  }

  lemma HeaderParts(buf: bytes, pos: nat, i: Image)
    requires |i.stamp| == 8
    ensures |Header(i)| == HEADER_SIZE
    ensures HasAt(buf, pos, Header(i)) <==> HasHeader(buf, pos, i)
  {
    var p0 := MAGIC + [i.typ, i.flags];
    var p1 := p0 + LE(|i.key|, 2);
    var p2 := p1 + LE(|i.value|, 4);
    var p3 := p2 + LE(|i.meta|, 4);
    SplitAt(buf, pos, p3, i.stamp);
    SplitAt(buf, pos, p2, LE(|i.meta|, 4));
    SplitAt(buf, pos, p1, LE(|i.value|, 4));
    SplitAt(buf, pos, p0, LE(|i.key|, 2));
  }

  lemma BodyParts(buf: bytes, pos: nat, i: Image)
    requires |i.stamp| == 8
    ensures |Header(i)| == HEADER_SIZE && |Body(i)| == Size(i) - CRC_SIZE && |Layout(i)| == Size(i)
    ensures HasAt(buf, pos, Body(i)) <==> HasHeader(buf, pos, i) && HasPayload(buf, pos, i)
  {
    hide Header, HasHeader, Crc, CrcBytes, HasAt;
    HeaderParts(buf, pos, i);
    SplitAt(buf, pos, Header(i) + i.key + i.value, i.meta);
    SplitAt(buf, pos, Header(i) + i.key, i.value);
    SplitAt(buf, pos, Header(i), i.key);
  }

  ghost predicate HasTrailer(buf: bytes, pos: nat, i: Image) {
    var t := pos + Size(i) - CRC_SIZE;
    t + CRC_SIZE <= |buf| && ReadCrc(buf[t..t + CRC_SIZE]) == Crc(buf[pos + 2..t])
  }

  lemma LayoutParts(buf: bytes, pos: nat, i: Image)
    requires |i.stamp| == 8
    ensures HasAt(buf, pos, Layout(i))
            <==> HasHeader(buf, pos, i) && HasPayload(buf, pos, i) && HasTrailer(buf, pos, i)
  {
    hide Crc, ReadCrc, CrcBytes;
    var c := Crc(Body(i)[2..]);
    BodyParts(buf, pos, i);
    SplitAt(buf, pos, Body(i), CrcBytes(c));
    var t := pos + Size(i) - CRC_SIZE;
    if HasAt(buf, pos, Body(i)) && t + CRC_SIZE <= |buf| {
      assert buf[pos + 2..t] == Body(i)[2..];
      CrcBytesRoundTrip(c);
      if ReadCrc(buf[t..t + CRC_SIZE]) == c {
        ReadCrcInjective(buf[t..t + CRC_SIZE], CrcBytes(c));
      }
    }
  }

  lemma HeaderFields(buf: bytes, pos: nat, i: Image)
    requires Fits(i) && HasHeader(buf, pos, i)
    ensures pos + HEADER_SIZE <= |buf|
    ensures buf[pos] == 0x4d && buf[pos + 1] == 0x44 && buf[pos + 2] == i.typ && buf[pos + 3] == i.flags
    ensures Field(buf, pos + 4, 2) == |i.key|
    ensures Field(buf, pos + 6, 4) == |i.value|
    ensures Field(buf, pos + 10, 4) == |i.meta|
    ensures buf[pos + 14..pos + 22] == i.stamp
  {
    Pow256s();
    LERoundTrip(|i.key|, 2);
    LERoundTrip(|i.value|, 4);
    LERoundTrip(|i.meta|, 4);
    assert buf[pos..pos + 4] == MAGIC + [i.typ, i.flags];
  }

  /** A well-sized image is read back as its record, whatever stands around it. */
  lemma ReadsLayout(buf: bytes, pos: nat, i: Image)
    requires Fits(i) && HasAt(buf, pos, Layout(i))
    ensures FrameLen(buf, pos) == Some(Size(i))
    ensures ImageAt(buf, pos) == i
    ensures ReadFrameAt(buf, pos) == Some((Record(i), Size(i)))
  {
    hide Crc, ReadCrc, CrcBytes, Field, LE, Layout, HasHeader, Header;
    LayoutParts(buf, pos, i);
    HeaderFields(buf, pos, i);
    assert AnnouncedLen(buf, pos) == Size(i);
  }

  lemma LengthFields(buf: bytes, pos: nat)
    requires FrameLen(buf, pos).Some?
    ensures var i := ImageAt(buf, pos);
            Fits(i) && FrameLen(buf, pos) == Some(Size(i))
    ensures FrameAt(buf, pos) == Record(ImageAt(buf, pos))
  {
    hide Crc, ReadCrc, Field;
    Pow256s();
    LEOfField(buf, pos + 4, 2);
    LEOfField(buf, pos + 6, 4);
    LEOfField(buf, pos + 10, 4);
  }

  lemma HeaderStands(buf: bytes, pos: nat)
    requires FrameLen(buf, pos).Some?
    ensures HasHeader(buf, pos, ImageAt(buf, pos))
  {
    hide Crc, ReadCrc, Field, LE;
    LEOfField(buf, pos + 4, 2);
    LEOfField(buf, pos + 6, 4);
    LEOfField(buf, pos + 10, 4);
    assert buf[pos..pos + 4] == MAGIC + [buf[pos + 2], buf[pos + 3]];
  }

  lemma PayloadStands(buf: bytes, pos: nat)
    requires FrameLen(buf, pos).Some?
    ensures HasPayload(buf, pos, ImageAt(buf, pos)) && HasTrailer(buf, pos, ImageAt(buf, pos))
  {
    hide Crc, ReadCrc, Field;
  }

  /** Whatever is read is a well-sized image standing there, byte for byte. */
  lemma ReadIsLayout(buf: bytes, pos: nat)
    requires FrameLen(buf, pos).Some?
    ensures var i := ImageAt(buf, pos);
            && Fits(i)
            && FrameLen(buf, pos) == Some(Size(i))
            && HasAt(buf, pos, Layout(i))
            && FrameAt(buf, pos) == Record(i)
  {
    hide FrameLen, FrameAt, ImageAt, Record, Layout, HasAt, HasHeader, HasPayload, HasTrailer;
    LengthFields(buf, pos);
    HeaderStands(buf, pos);
    PayloadStands(buf, pos);
    LayoutParts(buf, pos, ImageAt(buf, pos));
  }

  /** The header at pos announces a frame the buffer has room for. */
  predicate HeaderHolds(buf: bytes, pos: nat) {
    && pos + HEADER_SIZE <= |buf| && buf[pos] == 0x4d && buf[pos + 1] == 0x44
    && pos + AnnouncedLen(buf, pos) <= |buf|
  }

  /** A frame is valid exactly when its header holds up and the register, run over everything after
      the magic, trailer included, ends in the residue. */
  lemma ValidEndsInResidue(buf: bytes, pos: nat)
    ensures FrameLen(buf, pos).Some?
            <==> HeaderHolds(buf, pos)
                 && Register(Xor(0, ALL_ONES), buf[pos + 2..pos + AnnouncedLen(buf, pos)]) == Residue()
    ensures FrameLen(buf, pos).Some? ==> FrameLen(buf, pos) == Some(AnnouncedLen(buf, pos))
  {
    hide Crc, ReadCrc, Residue, Register;
    if HeaderHolds(buf, pos) {
      var e := pos + AnnouncedLen(buf, pos);
      var t := e - CRC_SIZE;
      assert buf[pos + 2..e] == buf[pos + 2..t] + buf[t..e];
      ChecksumMatchesIff(buf[pos + 2..t], buf[t..e]);
      KeyLengthFits(buf, pos);
    }
  }

  /** Two bytes never announce too long a key. */
  lemma KeyLengthFits(buf: bytes, pos: nat)
    requires pos + HEADER_SIZE <= |buf|
    ensures Field(buf, pos + 4, 2) <= MAX_KEY_LEN
  {
    Pow256s();
    FromLEBound(buf[pos + 4..pos + 6]);
  }

  /** No damage confined to four consecutive bytes of a frame, its ten length bytes aside, gets
      past the reader: magic damage is not recognised, anything else fails the checksum. */
  lemma DamageDetected(buf: bytes, damaged: bytes, pos: nat, w: nat)
    requires FrameLen(buf, pos).Some?
    requires DifferWithin(buf, damaged, w, 4)
    requires forall j :: 0 <= j < |buf| && !(pos <= j < pos + FrameLen(buf, pos).value) ==> buf[j] == damaged[j]
    requires forall j :: pos + 4 <= j < pos + 14 ==> buf[j] == damaged[j]
    ensures ReadFrameAt(damaged, pos) == None
  {
    hide FrameLen, FrameAt, Residue, AnnouncedLen, Field, DifferWithin;
    if FrameLen(damaged, pos).Some? {
      ValidEndsInResidue(buf, pos);
      ValidEndsInResidue(damaged, pos);
      SameLengths(buf, damaged, pos, w);
      DamageInside(buf, damaged, pos, pos + AnnouncedLen(buf, pos), w);
    }
  }

  lemma SameLengths(buf: bytes, damaged: bytes, pos: nat, w: nat)
    requires DifferWithin(buf, damaged, w, 4) && pos + HEADER_SIZE <= |buf|
    requires forall j :: pos + 4 <= j < pos + 14 ==> buf[j] == damaged[j]
    ensures AnnouncedLen(buf, pos) == AnnouncedLen(damaged, pos)
  {
    assert buf[pos + 4..pos + 6] == damaged[pos + 4..pos + 6];
    assert buf[pos + 6..pos + 10] == damaged[pos + 6..pos + 10];
    assert buf[pos + 10..pos + 14] == damaged[pos + 10..pos + 14];
  }

  lemma DamageInside(buf: bytes, damaged: bytes, pos: nat, e: nat, w: nat)
    requires pos + 2 <= e <= |buf|
    requires DifferWithin(buf, damaged, w, 4)
    requires forall j :: 0 <= j < |buf| && !(pos + 2 <= j < e) ==> buf[j] == damaged[j]
    ensures Register(Xor(0, ALL_ONES), buf[pos + 2..e]) != Register(Xor(0, ALL_ONES), damaged[pos + 2..e])
  {
    var a, b := buf[pos + 2..e], damaged[pos + 2..e];
    var k :| 0 <= k < |buf| && buf[k] != damaged[k];
    assert a[k - pos - 2] != b[k - pos - 2];
    if w >= pos + 2 {
      assert DifferWithin(a, b, w - pos - 2, 4);
      RegisterBurst(Xor(0, ALL_ONES), a, b, w - pos - 2);
    } else {
      assert DifferWithin(a, b, 0, 4);
      RegisterBurst(Xor(0, ALL_ONES), a, b, 0);
    }
  }

  // ---- the bytes of a frame --------------------------------------------------

  /** n stands at `at` in k bytes, the lowest first. */
  ghost predicate NumberAt(buf: bytes, at: nat, n: nat, k: nat)
    requires at + k <= |buf|
  {
    forall j: nat :: j < k ==> buf[at + j] == n / Pow256(j) % 256
  }

  lemma LEIsNumber(buf: bytes, at: nat, n: nat, k: nat)
    requires HasAt(buf, at, LE(n, k))
    ensures NumberAt(buf, at, n, k)
  {
    forall j: nat | j < k
      ensures buf[at + j] == n / Pow256(j) % 256
    {
      LEDigit(n, k, j);
      assert buf[at + j] == buf[at..at + k][j];
    }
  }

  lemma LayoutStands(i: Image)
    requires Fits(i)
    ensures var f := Layout(i);
            |f| == Size(i) && HasHeader(f, 0, i) && HasPayload(f, 0, i) && f[..Size(i) - 4] == Body(i)
            && f[Size(i) - 4..] == CrcBytes(Crc(Body(i)[2..])) && |Body(i)| == Size(i) - 4
  {
    hide Crc, CrcBytes, HasHeader, HasPayload, Body;
    var f := Layout(i);
    BodyParts(f, 0, i);
    assert f[0..0 + |Body(i)|] == Body(i);
  }

  /** The header of a frame, byte by byte: the magic, the type, the flags, the three lengths and the
      eight bytes of expireAt. */
  lemma HeaderBytes(i: Image)
    requires Fits(i)
    ensures var f := Layout(i);
            && |f| == 26 + |i.key| + |i.value| + |i.meta|
            && f[0] == 0x4d && f[1] == 0x44 && f[2] == i.typ && f[3] == i.flags
            && NumberAt(f, 4, |i.key|, 2) && NumberAt(f, 6, |i.value|, 4) && NumberAt(f, 10, |i.meta|, 4)
            && f[14..22] == i.stamp
  {
    hide Layout, NumberAt, LE, HasPayload, CrcBytes, Crc, Body;
    var f := Layout(i);
    LayoutStands(i);
    LEIsNumber(f, 4, |i.key|, 2);
    LEIsNumber(f, 6, |i.value|, 4);
    LEIsNumber(f, 10, |i.meta|, 4);
    assert f[0..4] == MAGIC + [i.typ, i.flags];
  }

  /** Then the key, the value, the meta bytes, and the checksum, its lowest byte first, of everything
      between the magic and itself. */
  lemma PayloadBytes(i: Image)
    requires Fits(i)
    ensures var f, k, v := Layout(i), |i.key|, |i.value|;
            var end := 22 + k + v + |i.meta|;
            && |f| == end + 4
            && f[22..22 + k] == i.key && f[22 + k..22 + k + v] == i.value && f[22 + k + v..end] == i.meta
            && f[end..] == CrcBytes(Crc(f[2..end]))
  {
    hide Layout, HasHeader, Crc, CrcBytes, Body;
    var f := Layout(i);
    LayoutStands(i);
    assert f[2..Size(i) - 4] == f[..Size(i) - 4][2..];
  }

  // ---- the printer ---------------------------------------------------------

  datatype EncodeError = KeyTooLarge | ValueTooLarge | MetaTooLarge | TypeOutOfRange | ExpireOutOfRange

  function OrEmpty(b: Option<bytes>): bytes {
    if b.Some? then b.value else []
  }

  /** Which image a record is written as, or why it is refused. */
  function ImageFor(typ: int, key: bytes, value: Option<bytes>, meta: Option<bytes>, expireAt: int)
    : (r: Result<Image, EncodeError>)
    ensures r.Ok? ==> Fits(r.value)
  {
    if |key| > MAX_KEY_LEN then Err(KeyTooLarge)
    else if |OrEmpty(value)| > MAX_VAL_LEN then Err(ValueTooLarge)
    else if |OrEmpty(meta)| > MAX_VAL_LEN then Err(MetaTooLarge)
    else if !(0 <= typ < 256) then Err(TypeOutOfRange)
    else if !IsInt64(expireAt) then Err(ExpireOutOfRange)
    else Ok(Image(typ, 0, Int64LE(expireAt), key, OrEmpty(value), OrEmpty(meta)))
  }

  /** Copies bs into the buffer at offset o. */
  method Put(frame: array<byte>, o: nat, bs: bytes) returns (next: nat)
    requires o + |bs| <= frame.Length
    modifies frame
    ensures next == o + |bs|
    ensures frame[..next] == old(frame[..o]) + bs
  {
    for k := 0 to |bs|
      invariant frame[..o] == old(frame[..o])
      invariant frame[o..o + k] == bs[..k]
    {
      frame[o + k] := bs[k];
    }
    next := o + |bs|;
    assert frame[..next] == frame[..o] + frame[o..next];
  }

  /** The fixed-size fields. */
  method PutHeader(frame: array<byte>, typ: byte, keyLen: nat, valLen: nat, metaLen: nat, expireAt: int)
    returns (o: nat)
    requires HEADER_SIZE <= frame.Length && IsInt64(expireAt)
    modifies frame
    ensures o == HEADER_SIZE
    ensures frame[..o] == MAGIC + [typ, 0] + LE(keyLen, 2) + LE(valLen, 4) + LE(metaLen, 4) + Int64LE(expireAt)
  {
    hide LE, Int64LE;
    o := Put(frame, 0, MAGIC);
    o := Put(frame, o, [typ, 0]);
    assert frame[..o] == MAGIC + [typ, 0];
    o := Put(frame, o, LE(keyLen, 2));
    o := Put(frame, o, LE(valLen, 4));
    o := Put(frame, o, LE(metaLen, 4));
    o := Put(frame, o, Int64LE(expireAt));
  }

  method EncodeFrame(typ: int, key: bytes, value: Option<bytes>, meta: Option<bytes>, expireAt: int)
    returns (r: Result<bytes, EncodeError>)
    ensures r.Ok? == ImageFor(typ, key, value, meta, expireAt).Ok?
    ensures r.Ok? ==> r.value == Layout(ImageFor(typ, key, value, meta, expireAt).value)
    ensures r.Err? ==> r.error == ImageFor(typ, key, value, meta, expireAt).error
  {
    hide Crc, CrcBytes, LE, Int64LE, HasAt;
    if |key| > MAX_KEY_LEN { return Err(KeyTooLarge); }
    var val := OrEmpty(value);
    var met := OrEmpty(meta);
    if |val| > MAX_VAL_LEN { return Err(ValueTooLarge); }
    if |met| > MAX_VAL_LEN { return Err(MetaTooLarge); }
    if !(0 <= typ < 256) { return Err(TypeOutOfRange); }
    if !IsInt64(expireAt) { return Err(ExpireOutOfRange); }
    var frame := new byte[HEADER_SIZE + |key| + |val| + |met| + CRC_SIZE];
    ghost var i := ImageFor(typ, key, value, meta, expireAt).value;
    var o := PutHeader(frame, typ, |key|, |val|, |met|, expireAt);
    assert frame[..o] == Header(i);
    o := Put(frame, o, key);
    o := Put(frame, o, val);
    o := Put(frame, o, met);
    assert frame[..o] == Body(i);
    var c := Crc(frame[2..o]);
    assert frame[2..o] == Body(i)[2..];
    o := Put(frame, o, CrcBytes(c));
    assert frame[..] == frame[..o];
    r := Ok(frame[..]);
  }

  /** What the printer writes, the reader reads back: absent and empty meta both as absent, an
      absent value as an empty one, and expireAt as the nearest double (itself up to 2^53). */
  lemma EncodeThenRead(typ: int, key: bytes, value: Option<bytes>, meta: Option<bytes>, expireAt: int,
                       before: bytes, after: bytes)
    requires ImageFor(typ, key, value, meta, expireAt).Ok?
    ensures var i := ImageFor(typ, key, value, meta, expireAt).value;
            var met := if meta == Some([]) then None else meta;
            ReadFrameAt(before + Layout(i) + after, |before|)
            == Some((Frame(typ, key, OrEmpty(value), met, ToNumber(expireAt)), Size(i)))
    ensures -TWO_53 <= expireAt <= TWO_53 ==> ToNumber(expireAt) == expireAt
  {
    hide Crc, ReadCrc, CrcBytes;
    var i := ImageFor(typ, key, value, meta, expireAt).value;
    var buf := before + Layout(i) + after;
    assert buf[|before|..|before| + |Layout(i)|] == Layout(i);
    ReadsLayout(buf, |before|, i);
    Int64RoundTrip(expireAt);
    if -TWO_53 <= expireAt <= TWO_53 {
      SmallIntegersAreExact(expireAt);
    }
  }

  /** And back: writing what was read gives the same bytes, exactly when the flags byte is the
      one the printer writes and expireAt is a number a double holds exactly. */
  lemma ReadThenEncode(buf: bytes, pos: nat)
    requires FrameLen(buf, pos).Some?
    ensures var f, i := FrameAt(buf, pos), ImageAt(buf, pos);
            var again := ImageFor(f.typ, f.key, Some(f.value), f.meta, f.expireAt);
            (again.Ok? && HasAt(buf, pos, Layout(again.value)))
            <==> i.flags == 0 && ToNumber(FromInt64LE(i.stamp)) == FromInt64LE(i.stamp)
  {
    hide Crc, ReadCrc, CrcBytes;
    ReadIsLayout(buf, pos);
    var f, i := FrameAt(buf, pos), ImageAt(buf, pos);
    FromInt64RoundTrip(i.stamp);
    var again := ImageFor(f.typ, f.key, Some(f.value), f.meta, f.expireAt);
    if again.Ok? && HasAt(buf, pos, Layout(again.value)) {
      ReadsLayout(buf, pos, again.value);
      Int64RoundTrip(f.expireAt);
    }
  }

  /** Read and written again. */
  function Rewritten(buf: bytes): Result<bytes, EncodeError>
    requires FrameLen(buf, 0).Some?
  {
    var f := FrameAt(buf, 0);
    match ImageFor(f.typ, f.key, Some(f.value), f.meta, f.expireAt)
    case Ok(i) => Ok(Layout(i))
    case Err(e) => Err(e)
  }

  /** Whatever frame stands alone in a buffer, rewriting it gives other bytes if its flags byte is
      not 0 or its expireAt is no double. */
  lemma RewritesOtherwise(i: Image)
    requires Fits(i) && (i.flags != 0 || ToNumber(FromInt64LE(i.stamp)) != FromInt64LE(i.stamp))
    ensures FrameLen(Layout(i), 0).Some? && Rewritten(Layout(i)) != Ok(Layout(i))
  {
    hide FrameLen, FrameAt, Layout, ToNumber;
    var buf := Layout(i);
    assert buf[0..0 + |buf|] == buf;
    ReadsLayout(buf, 0, i);
    ReadThenEncode(buf, 0);
    assert Rewritten(buf) == Ok(buf) ==> HasAt(buf, 0, buf);
    ReadFlagsAndStamp(i);
  }

  lemma ReadFlagsAndStamp(i: Image)
    requires Fits(i) && FrameLen(Layout(i), 0).Some?
    ensures ImageAt(Layout(i), 0).flags == i.flags && ImageAt(Layout(i), 0).stamp == i.stamp
  {
    hide Crc, ReadCrc, CrcBytes;
    var buf := Layout(i);
    assert buf[0..0 + |buf|] == buf;
    LayoutParts(buf, 0, i);
    BodyParts(buf, 0, i);
  }

  /** Two frames that are not rewritten: a flags byte of 1, and an expireAt of 2^53 + 1. */
  lemma RewrittenFramesDiffer()
    ensures var flagged := Layout(Image(TYPE_SET, 1, Int64LE(0), [], [], []));
            FrameLen(flagged, 0).Some? && Rewritten(flagged) != Ok(flagged)
    ensures var late := Layout(Image(TYPE_SET, 0, Int64LE(TWO_53 + 1), [], [], []));
            FrameLen(late, 0).Some? && Rewritten(late) != Ok(late)
  {
    hide FrameLen, Layout, Rewritten, ToNumber;
    RewritesOtherwise(Image(TYPE_SET, 1, Int64LE(0), [], [], []));
    Int64RoundTrip(TWO_53 + 1);
    FirstInexact();
    RewritesOtherwise(Image(TYPE_SET, 0, Int64LE(TWO_53 + 1), [], [], []));
  }
}
