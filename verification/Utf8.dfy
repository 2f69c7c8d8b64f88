// packages/kaos/src/local.ts and internal.ts: the chunk-fed UTF-8 validator and the lossy
// UTF-8 and UTF-16LE decoders. A decoded string is the sequence of its code points.
module Utf8 {
  import opened Bytes

  // ---- RFC 3629 ------------------------------------------------------------

  predicate Tail(b: byte) {
    0x80 <= b <= 0xbf
  }

  /** The second byte a lead byte allows, in the grammar of section 4. */
  predicate SecondAllowed(b0: byte, b1: byte) {
    if b0 == 0xe0 then 0xa0 <= b1 <= 0xbf
    else if b0 == 0xed then 0x80 <= b1 <= 0x9f
    else if b0 == 0xf0 then 0x90 <= b1 <= 0xbf
    else if b0 == 0xf4 then 0x80 <= b1 <= 0x8f
    else Tail(b1)
  }

  /** How many bytes the character a lead byte starts has, or 0 when it starts none. */
  function LeadLen(b0: byte): nat {
    if b0 <= 0x7f then 1
    else if 0xc2 <= b0 <= 0xdf then 2
    else if 0xe0 <= b0 <= 0xef then 3
    else if 0xf0 <= b0 <= 0xf4 then 4
    else 0
  }

  /** The length of the UTF8-char (section 4) a byte string begins with, or 0. */
  function CharLen(bs: bytes): (n: nat)
    ensures n <= |bs| && n <= 4
  {
    if bs == [] then 0
    else
      var n := LeadLen(bs[0]);
      if n == 0 || n > |bs| then 0
      else if n == 1 then 1
      else if SecondAllowed(bs[0], bs[1]) && (n < 3 || Tail(bs[2])) && (n < 4 || Tail(bs[3])) then n
      else 0
  }

  /** UTF8-octets = *( UTF8-char ). */
  predicate WellFormed(bs: bytes)
    decreases |bs|
  {
    bs == [] || (CharLen(bs) > 0 && WellFormed(bs[CharLen(bs)..]))
  }

  /** A code point that is not a surrogate. */
  predicate IsScalar(c: int) {
    0 <= c < 0xd800 || 0xe000 <= c < 0x11_0000
  }

  /** Section 3: the bytes of one character. */
  function Encode(c: int): bytes
    requires IsScalar(c)
  {
    if c < 0x80 then [c]
    else if c < 0x800 then [0xc0 + c / 64, 0x80 + c % 64]
    else if c < 0x1_0000 then [0xe0 + c / 4096, 0x80 + c / 64 % 64, 0x80 + c % 64]
    else [0xf0 + c / 262144, 0x80 + c / 4096 % 64, 0x80 + c / 64 % 64, 0x80 + c % 64]
  }

  predicate AllScalars(cs: seq<int>) {
    forall i :: 0 <= i < |cs| ==> IsScalar(cs[i])
  }

  function EncodeAll(cs: seq<int>): bytes
    requires AllScalars(cs)
  {
    if cs == [] then [] else Encode(cs[0]) + EncodeAll(cs[1..])
  }

  // ---- the validator -------------------------------------------------------

  /** Continuation bytes still needed, and the range of the next one. */
  datatype Expect = Expect(needed: nat, lower: int, upper: int)

  const START := Expect(0, 0x80, 0xbf)

  datatype Checked = Invalid | Going(e: Expect)

  function Check(e: Expect, b: byte): Checked {
    if e.needed == 0 then
      if b <= 0x7f then Going(e)
      else if 0xc2 <= b <= 0xdf then Going(e.(needed := 1))
      else if b == 0xe0 then Going(e.(needed := 2, lower := 0xa0))
      else if 0xe1 <= b <= 0xec then Going(e.(needed := 2))
      else if b == 0xed then Going(e.(needed := 2, upper := 0x9f))
      else if 0xee <= b <= 0xef then Going(e.(needed := 2))
      else if b == 0xf0 then Going(e.(needed := 3, lower := 0x90))
      else if 0xf1 <= b <= 0xf3 then Going(e.(needed := 3))
      else if b == 0xf4 then Going(e.(needed := 3, upper := 0x8f))
      else Invalid
    else if b < e.lower || b > e.upper then Invalid
    else Going(Expect(e.needed - 1, 0x80, 0xbf))
  }

  function CheckAll(e: Expect, bs: bytes): Checked
    decreases |bs|
  {
    if bs == [] then Going(e)
    else
      match Check(e, bs[0])
      case Invalid => Invalid
      case Going(f) => CheckAll(f, bs[1..])
  }

  /** What a byte string must go on with, if it can go on at all. */
  ghost predicate Begins(bs: bytes) {
    exists rest: bytes :: WellFormed(bs + rest)
  }

  class Validator {
    var needed: nat
    var lower: int
    var upper: int
    ghost var fed: bytes

    function Now(): Expect
      reads this
    {
      Expect(needed, lower, upper)
    }

    /** The state is the one after the bytes fed so far. */
    ghost predicate Valid()
      reads this
    {
      CheckAll(START, fed) == Going(Now())
    }

    constructor ()
      ensures Valid() && fed == []
    {
      needed, lower, upper := 0, 0x80, 0xbf;
      fed := [];
    }

    /** Takes one chunk; throws exactly when no well-formed string begins with the bytes so far. */
    method Write(chunk: bytes) returns (ok: bool)
      requires Valid()
      modifies this
      ensures fed == old(fed) + chunk
      ensures ok <==> Begins(fed)
      ensures ok ==> Valid()
    {
      fed := fed + chunk;
      CheckConcat(START, old(fed), chunk);
      BeginsExactlyGoing(fed);
      for i := 0 to |chunk|
        invariant fed == old(fed) + chunk
        invariant CheckAll(old(Now()), chunk) == CheckAll(Now(), chunk[i..])
      {
        var b := chunk[i];
        ghost var before := Now();
        assert chunk[i..][0] == b && chunk[i..][1..] == chunk[i + 1..];
        if needed == 0 {
          if b <= 0x7f { continue; }
          if b >= 0xc2 && b <= 0xdf {
            needed := 1;
          } else if b == 0xe0 {
            needed := 2;
            lower := 0xa0;
          } else if b >= 0xe1 && b <= 0xec {
            needed := 2;
          } else if b == 0xed {
            needed := 2;
            upper := 0x9f;
          } else if b >= 0xee && b <= 0xef {
            needed := 2;
          } else if b == 0xf0 {
            needed := 3;
            lower := 0x90;
          } else if b >= 0xf1 && b <= 0xf3 {
            needed := 3;
          } else if b == 0xf4 {
            needed := 3;
            upper := 0x8f;
          } else {
            return false;
          }
        } else {
          if b < lower || b > upper { return false; }
          lower := 0x80;
          upper := 0xbf;
          needed := needed - 1;
        }
        assert Check(before, b) == Going(Now());
      }
      assert chunk[|chunk|..] == [];
      ok := true;
    }

    /** Throws exactly when the bytes fed are not well-formed. */
    method End() returns (ok: bool)
      requires Valid()
      ensures ok <==> WellFormed(fed)
    {
      AcceptsExactlyWellFormed(fed);
      ok := needed == 0;
    }
  }

  /** The next byte a state asks for is a byte. */
  predicate Sane(e: Expect) {
    e.needed <= 3 && 0x80 <= e.lower <= e.upper <= 0xbf
  }

  lemma {:induction false} ChecksStaySane(e: Expect, bs: bytes)
    requires Sane(e) && (e.needed == 0 ==> e == START) && CheckAll(e, bs).Going?
    ensures var f := CheckAll(e, bs).e; Sane(f) && (f.needed == 0 ==> f == START)
    decreases |bs|
  {
    if bs != [] {
      ChecksStaySane(Check(e, bs[0]).e, bs[1..]);
    }
  }

  /** From any state a character can still be completed. */
  lemma {:induction false} Completed(e: Expect) returns (rest: bytes)
    requires Sane(e)
    ensures Accepts(e, rest)
    decreases e.needed
  {
    if e.needed == 0 {
      rest := [];
    } else {
      var f := Expect(e.needed - 1, 0x80, 0xbf);
      var more := Completed(f);
      rest := [e.lower] + more;
      assert rest[1..] == more;
    }
  }

  /** A byte string begins a well-formed one exactly when the validator has not thrown on it. */
  lemma BeginsExactlyGoing(bs: bytes)
    ensures Begins(bs) <==> CheckAll(START, bs).Going?
  {
    if CheckAll(START, bs).Going? {
      ChecksStaySane(START, bs);
      var rest := Completed(CheckAll(START, bs).e);
      CheckConcat(START, bs, rest);
      AcceptsExactlyWellFormed(bs + rest);
    }
    if Begins(bs) {
      var rest: bytes :| WellFormed(bs + rest);
      CheckConcat(START, bs, rest);
      AcceptsExactlyWellFormed(bs + rest);
    }
  }

  /** Writing the chunks one after another, then ending: whether no call throws. */
  function ValidatesFrom(e: Expect, chunks: seq<bytes>): bool
    decreases |chunks|
  {
    if chunks == [] then e.needed == 0
    else
      match CheckAll(e, chunks[0])
      case Invalid => false
      case Going(f) => ValidatesFrom(f, chunks[1..])
  }

  method Validate(chunks: seq<bytes>) returns (ok: bool)
    ensures ok <==> WellFormed(Join(chunks))
  {
    var v := new Validator();
    for i := 0 to |chunks|
      invariant v.Valid() && v.fed + Join(chunks[i..]) == Join(chunks)
    {
      assert chunks[i..][0] == chunks[i] && chunks[i..][1..] == chunks[i + 1..];
      ghost var fed := v.fed;
      assert fed + (chunks[i] + Join(chunks[i + 1..])) == (fed + chunks[i]) + Join(chunks[i + 1..]);
      var written := v.Write(chunks[i]);
      if !written {
        assert Join(chunks) == v.fed + Join(chunks[i + 1..]);
        return false;
      }
    }
    assert v.fed + Join(chunks[|chunks|..]) == v.fed;
    ok := v.End();
  }

  lemma {:induction false} CheckConcat(e: Expect, a: bytes, b: bytes)
    ensures CheckAll(e, a + b) == match CheckAll(e, a) case Invalid => Invalid case Going(f) => CheckAll(f, b)
    decreases |a|
  {
    if a == [] {
      assert a + b == b;
    } else {
      assert (a + b)[0] == a[0] && (a + b)[1..] == a[1..] + b;
      if Check(e, a[0]).Going? {
        CheckConcat(Check(e, a[0]).e, a[1..], b);
      }
    }
  }

  lemma {:induction false} ChunksCheck(e: Expect, chunks: seq<bytes>)
    ensures ValidatesFrom(e, chunks) <==> CheckAll(e, Join(chunks)).Going? && CheckAll(e, Join(chunks)).e.needed == 0
    decreases |chunks|
  {
    if chunks != [] {
      CheckConcat(e, chunks[0], Join(chunks[1..]));
      if CheckAll(e, chunks[0]).Going? {
        ChunksCheck(CheckAll(e, chunks[0]).e, chunks[1..]);
      }
    }
  }

  predicate Accepts(e: Expect, bs: bytes) {
    CheckAll(e, bs).Going? && CheckAll(e, bs).e.needed == 0
  }

  lemma AcceptsStep(e: Expect, bs: bytes)
    requires bs != []
    ensures Accepts(e, bs) <==> Check(e, bs[0]).Going? && Accepts(Check(e, bs[0]).e, bs[1..])
  {
  }

  /** The state after the first byte, and what it still wants, spelled out. */
  lemma AcceptsCharacter(bs: bytes)
    requires bs != []
    ensures Accepts(START, bs) <==> CharLen(bs) > 0 && Accepts(START, bs[CharLen(bs)..])
  {
    AcceptsStep(START, bs);
    if LeadLen(bs[0]) > 1 {
      var e := Check(START, bs[0]).e;
      if |bs| > 1 {
        AcceptsStep(e, bs[1..]);
        if LeadLen(bs[0]) > 2 && |bs| > 2 {
          assert bs[1..][1..] == bs[2..];
          AcceptsStep(Expect(e.needed - 1, 0x80, 0xbf), bs[2..]);
          if LeadLen(bs[0]) > 3 && |bs| > 3 {
            assert bs[2..][1..] == bs[3..];
            AcceptsStep(Expect(e.needed - 2, 0x80, 0xbf), bs[3..]);
          }
        }
      }
    }
  }

  lemma {:induction false} AcceptsExactlyWellFormed(bs: bytes)
    ensures Accepts(START, bs) <==> WellFormed(bs)
    decreases |bs|
  {
    if bs != [] {
      AcceptsCharacter(bs);
      if CharLen(bs) > 0 {
        AcceptsExactlyWellFormed(bs[CharLen(bs)..]);
      }
    }
  }

  /** However a byte string is cut into chunks, the validator accepts it exactly when it is
      well-formed UTF-8. */
  lemma ChunkIndependent(chunks: seq<bytes>)
    ensures ValidatesFrom(START, chunks) <==> WellFormed(Join(chunks))
  {
    ChunksCheck(START, chunks);
    AcceptsExactlyWellFormed(Join(chunks));
  }

  // ---- the lossy UTF-8 decoder ---------------------------------------------

  /** The payload bits of a byte: its remainder by a power of two. */
  function Payload(b: byte, size: int): int
    requires size > 0
  {
    b % size
  }

  /** The code point of the character a byte string begins with: the payload bits of its bytes. */
  function CodePoint(bs: bytes): int
    requires CharLen(bs) > 0
  {
    var n := CharLen(bs);
    if n == 1 then bs[0]
    else if n == 2 then Payload(bs[0], 32) * 64 + Payload(bs[1], 64)
    else if n == 3 then Payload(bs[0], 16) * 4096 + Payload(bs[1], 64) * 64 + Payload(bs[2], 64)
    else Payload(bs[0], 8) * 262144 + Payload(bs[1], 64) * 4096 + Payload(bs[2], 64) * 64 + Payload(bs[3], 64)
  }

  /** Every character kept, every byte that begins none dropped. */
  function Decode(bs: bytes): seq<int>
    decreases |bs|
  {
    if bs == [] then []
    else if CharLen(bs) > 0 then [CodePoint(bs)] + Decode(bs[CharLen(bs)..])
    else Decode(bs[1..])
  }

  lemma DecodeKept(data: bytes, i: nat, n: nat, c: int)
    requires i < |data| && CharLen(data[i..]) == n > 0 && CodePoint(data[i..]) == c
    ensures i + n <= |data| && Decode(data[i..]) == [c] + Decode(data[i + n..])
  {
    assert data[i..][n..] == data[i + n..];
  }

  lemma DecodeDropped(data: bytes, i: nat)
    requires i < |data| && CharLen(data[i..]) == 0
    ensures Decode(data[i..]) == Decode(data[i + 1..])
  {
    assert data[i..][1..] == data[i + 1..];
  }

  /** One character or one dropped byte: the branches of the decoder's loop. */
  method DecodeOne(data: bytes, i: nat) returns (n: nat, keep: bool, c: int)
    requires i < |data|
    ensures keep <==> CharLen(data[i..]) > 0
    ensures keep ==> n == CharLen(data[i..]) && c == CodePoint(data[i..])
    ensures !keep ==> n == 1
  {
    var b0 := data[i];
    ghost var rest := data[i..];
    assert rest[0] == b0 && forall k :: 0 <= k < |rest| ==> rest[k] == data[i + k];
    n, keep, c := 1, false, 0;
    if b0 <= 0x7f {
      return 1, true, b0;
    }
    if b0 >= 0xc2 && b0 <= 0xdf {
      if i + 1 < |data| && Tail(data[i + 1]) {
        return 2, true, Payload(b0, 32) * 64 + Payload(data[i + 1], 64);
      }
      return;
    }
    if b0 >= 0xe0 && b0 <= 0xef {
      var validSecond := i + 1 < |data|
        && ((b0 == 0xe0 && data[i + 1] >= 0xa0 && data[i + 1] <= 0xbf)
            || (b0 >= 0xe1 && b0 <= 0xec && Tail(data[i + 1]))
            || (b0 == 0xed && data[i + 1] >= 0x80 && data[i + 1] <= 0x9f)
            || (b0 >= 0xee && b0 <= 0xef && Tail(data[i + 1])));
      if validSecond && i + 2 < |data| && Tail(data[i + 2]) {
        return 3, true, Payload(b0, 16) * 4096 + Payload(data[i + 1], 64) * 64 + Payload(data[i + 2], 64);
      }
      return;
    }
    if b0 >= 0xf0 && b0 <= 0xf4 {
      var validSecond := i + 1 < |data|
        && ((b0 == 0xf0 && data[i + 1] >= 0x90 && data[i + 1] <= 0xbf)
            || (b0 >= 0xf1 && b0 <= 0xf3 && Tail(data[i + 1]))
            || (b0 == 0xf4 && data[i + 1] >= 0x80 && data[i + 1] <= 0x8f));
      if validSecond && i + 2 < |data| && i + 3 < |data| && Tail(data[i + 2]) && Tail(data[i + 3]) {
        return 4, true, Payload(b0, 8) * 262144 + Payload(data[i + 1], 64) * 4096
                        + Payload(data[i + 2], 64) * 64 + Payload(data[i + 3], 64);
      }
    }
  }

  method DecodeUtf8Ignore(data: bytes) returns (output: seq<int>)
    ensures output == Decode(data)
  {
    hide CharLen, CodePoint;
    output := [];
    var i := 0;
    assert data[0..] == data;
    while i < |data|
      invariant i <= |data|
      invariant Decode(data) == output + Decode(data[i..])
    {
      var n, keep, c := DecodeOne(data, i);
      if keep {
        DecodeKept(data, i, n, c);
        assert output + ([c] + Decode(data[i + n..])) == (output + [c]) + Decode(data[i + n..]);
        output := output + [c];
      } else {
        DecodeDropped(data, i);
      }
      i := i + n;
    }
    assert output + [] == output;
  }

  // ---- the two directions --------------------------------------------------

  lemma TwoBytes(c: int)
    requires 0x80 <= c < 0x800
    ensures 0xc2 <= 0xc0 + c / 64 <= 0xdf && Tail(0x80 + c % 64)
    ensures Payload(0xc0 + c / 64, 32) * 64 + Payload(0x80 + c % 64, 64) == c
  {
  }

  lemma ThreeBytes(c: int)
    requires 0x800 <= c < 0x1_0000 && IsScalar(c)
    ensures 0xe0 <= 0xe0 + c / 4096 <= 0xef && Tail(0x80 + c % 64)
    ensures SecondAllowed(0xe0 + c / 4096, 0x80 + c / 64 % 64)
    ensures Payload(0xe0 + c / 4096, 16) * 4096 + Payload(0x80 + c / 64 % 64, 64) * 64 + Payload(0x80 + c % 64, 64) == c
  {
    assert c / 64 == c / 4096 * 64 + c / 64 % 64;
  }

  lemma FourBytes(c: int)
    requires 0x1_0000 <= c < 0x11_0000
    ensures 0xf0 <= 0xf0 + c / 262144 <= 0xf4 && Tail(0x80 + c / 64 % 64) && Tail(0x80 + c % 64)
    ensures SecondAllowed(0xf0 + c / 262144, 0x80 + c / 4096 % 64)
    ensures Payload(0xf0 + c / 262144, 8) * 262144 + Payload(0x80 + c / 4096 % 64, 64) * 4096
            + Payload(0x80 + c / 64 % 64, 64) * 64 + Payload(0x80 + c % 64, 64) == c
  {
    assert c / 64 == c / 4096 * 64 + c / 64 % 64;
    assert c / 4096 == c / 262144 * 64 + c / 4096 % 64;
  }

  lemma CharacterComesBack(c: int, rest: bytes)
    requires IsScalar(c)
    ensures CharLen(Encode(c) + rest) == |Encode(c)| > 0
    ensures CodePoint(Encode(c) + rest) == c
  {
    hide SecondAllowed, Payload, Tail;
    var bs := Encode(c) + rest;
    if c < 0x80 {
      assert bs[0] == c;
    } else if c < 0x800 {
      TwoBytes(c);
      assert bs[0] == 0xc0 + c / 64 && bs[1] == 0x80 + c % 64;
      AnyTail(bs[0], bs[1]);
    } else if c < 0x1_0000 {
      ThreeBytes(c);
      assert bs[0] == 0xe0 + c / 4096 && bs[1] == 0x80 + c / 64 % 64 && bs[2] == 0x80 + c % 64;
    } else {
      FourBytes(c);
      assert bs[0] == 0xf0 + c / 262144 && bs[1] == 0x80 + c / 4096 % 64;
      assert bs[2] == 0x80 + c / 64 % 64 && bs[3] == 0x80 + c % 64;
    }
  }

  lemma AnyTail(b0: byte, b1: byte)
    ensures LeadLen(b0) == 2 ==> (SecondAllowed(b0, b1) <==> Tail(b1))
    ensures SecondAllowed(b0, b1) ==> Tail(b1)
  {
  }

  lemma TwoBack(b0: byte, b1: byte)
    requires 0xc2 <= b0 <= 0xdf && Tail(b1)
    ensures var c := Payload(b0, 32) * 64 + Payload(b1, 64);
            0x80 <= c < 0x800 && Encode(c) == [b0, b1]
  {
  }

  lemma ThreeBack(b0: byte, b1: byte, b2: byte)
    requires 0xe0 <= b0 <= 0xef && SecondAllowed(b0, b1) && Tail(b2)
    ensures var c := Payload(b0, 16) * 4096 + Payload(b1, 64) * 64 + Payload(b2, 64);
            0x800 <= c < 0x1_0000 && IsScalar(c) && Encode(c) == [b0, b1, b2]
  {
    AnyTail(b0, b1);
    var x, y, z := b0 - 0xe0, b1 - 0x80, b2 - 0x80;
    var c := x * 4096 + y * 64 + z;
    assert Payload(b0, 16) == x && Payload(b1, 64) == y && Payload(b2, 64) == z;
    assert c / 64 == x * 64 + y && c % 64 == z && c / 4096 == x;
  }

  lemma FourBack(b0: byte, b1: byte, b2: byte, b3: byte)
    requires 0xf0 <= b0 <= 0xf4 && SecondAllowed(b0, b1) && Tail(b2) && Tail(b3)
    ensures var c := Payload(b0, 8) * 262144 + Payload(b1, 64) * 4096 + Payload(b2, 64) * 64 + Payload(b3, 64);
            0x1_0000 <= c < 0x11_0000 && Encode(c) == [b0, b1, b2, b3]
  {
    AnyTail(b0, b1);
    var x, y, z, w := b0 - 0xf0, b1 - 0x80, b2 - 0x80, b3 - 0x80;
    var c := x * 262144 + y * 4096 + z * 64 + w;
    assert Payload(b0, 8) == x && Payload(b1, 64) == y && Payload(b2, 64) == z && Payload(b3, 64) == w;
    FourDigits(x, y, z, w);
  }

  lemma FourDigits(x: nat, y: nat, z: nat, w: nat)
    requires y < 64 && z < 64 && w < 64
    ensures var c := x * 262144 + y * 4096 + z * 64 + w;
            && c / 64 == x * 4096 + y * 64 + z && c % 64 == w
            && c / 4096 == x * 64 + y && (c / 64) % 64 == z
            && c / 262144 == x && (c / 4096) % 64 == y
  {
  }

  lemma CharacterGoesBack(bs: bytes)
    requires CharLen(bs) > 0
    ensures IsScalar(CodePoint(bs)) && Encode(CodePoint(bs)) == bs[..CharLen(bs)]
  {
    hide Encode, Payload, SecondAllowed, Tail;
    var n := CharLen(bs);
    if n == 1 {
      OneByte(bs[0]);
      assert bs[..1] == [bs[0]];
    } else if n == 2 {
      AnyTail(bs[0], bs[1]);
      TwoBack(bs[0], bs[1]);
      assert bs[..2] == [bs[0], bs[1]];
    } else if n == 3 {
      ThreeBack(bs[0], bs[1], bs[2]);
      assert bs[..3] == [bs[0], bs[1], bs[2]];
    } else {
      FourBack(bs[0], bs[1], bs[2], bs[3]);
      assert bs[..4] == [bs[0], bs[1], bs[2], bs[3]];
    }
  }

  lemma OneByte(b: byte)
    requires b < 0x80
    ensures Encode(b) == [b]
  {
  }

  /** Decoding inverts encoding on every sequence of scalar values. */
  lemma {:induction false} DecodeInvertsEncode(cs: seq<int>)
    requires AllScalars(cs)
    ensures Decode(EncodeAll(cs)) == cs && WellFormed(EncodeAll(cs))
    decreases |cs|
  {
    hide CharLen, CodePoint, Encode;
    if cs != [] {
      var rest := EncodeAll(cs[1..]);
      CharacterComesBack(cs[0], rest);
      assert (Encode(cs[0]) + rest)[|Encode(cs[0])|..] == rest;
      DecodeInvertsEncode(cs[1..]);
    }
  }

  /** The decoder outputs scalar values only, and re-encoding its output gives back the input
      exactly when the input is well-formed; otherwise something shorter. */
  lemma {:induction false} EncodeInvertsDecodeIff(bs: bytes)
    ensures AllScalars(Decode(bs))
    ensures |EncodeAll(Decode(bs))| <= |bs|
    ensures EncodeAll(Decode(bs)) == bs <==> WellFormed(bs)
    ensures |EncodeAll(Decode(bs))| == |bs| <==> WellFormed(bs)
    decreases |bs|
  {
    hide CodePoint, Encode, CharLen;
    if bs != [] {
      var n := CharLen(bs);
      if n > 0 {
        CharacterGoesBack(bs);
        EncodeInvertsDecodeIff(bs[n..]);
        assert Decode(bs)[0] == CodePoint(bs) && Decode(bs)[1..] == Decode(bs[n..]);
        assert bs == bs[..n] + bs[n..];
        assert bs[..n] + EncodeAll(Decode(bs[n..])) == bs ==> EncodeAll(Decode(bs[n..])) == bs[n..] by {
          assert (bs[..n] + EncodeAll(Decode(bs[n..])))[n..] == EncodeAll(Decode(bs[n..]));
        }
      } else {
        EncodeInvertsDecodeIff(bs[1..]);
      }
    }
  }

  // ---- the lossy UTF-16LE decoder ------------------------------------------

  predicate High(u: int) {
    0xd800 <= u <= 0xdbff
  }

  predicate Low(u: int) {
    0xdc00 <= u <= 0xdfff
  }

  /** A code unit from its two bytes, low byte first. */
  function CodeUnit(low: byte, high: byte): int {
    var h: int := high;
    low + 256 * h
  }

  function Unit(bs: bytes, i: nat): int
    requires i + 1 < |bs|
  {
    CodeUnit(bs[i], bs[i + 1])
  }

  /** The length of the UTF-16LE character a byte string begins with, or 0. */
  function Char16Len(bs: bytes): (n: nat)
    ensures n <= |bs| && n <= 4
  {
    if |bs| < 2 then 0
    else if High(Unit(bs, 0)) then if |bs| >= 4 && Low(Unit(bs, 2)) then 4 else 0
    else if Low(Unit(bs, 0)) then 0
    else 2
  }

  function Code16(bs: bytes): int
    requires Char16Len(bs) > 0
  {
    if Char16Len(bs) == 2 then Unit(bs, 0)
    else 0x1_0000 + (Unit(bs, 0) - 0xd800) * 1024 + (Unit(bs, 2) - 0xdc00)
  }

  /** Every character kept, every unpaired surrogate and a trailing odd byte dropped. */
  function Decode16(bs: bytes): seq<int>
    decreases |bs|
  {
    if |bs| < 2 then []
    else if Char16Len(bs) > 0 then [Code16(bs)] + Decode16(bs[Char16Len(bs)..])
    else Decode16(bs[2..])
  }

  predicate WellFormed16(bs: bytes)
    decreases |bs|
  {
    bs == [] || (Char16Len(bs) > 0 && WellFormed16(bs[Char16Len(bs)..]))
  }

  function Encode16(c: int): bytes
    requires IsScalar(c)
  {
    if c < 0x1_0000 then [c % 256, c / 256]
    else
      var v := c - 0x1_0000;
      var hi, lo := 0xd800 + v / 1024, 0xdc00 + v % 1024;
      [hi % 256, hi / 256, lo % 256, lo / 256]
  }

  function EncodeAll16(cs: seq<int>): bytes
    requires AllScalars(cs)
  {
    if cs == [] then [] else Encode16(cs[0]) + EncodeAll16(cs[1..])
  }

  method DecodeUtf16LeIgnore(data: bytes) returns (output: seq<int>)
    ensures output == Decode16(data)
  {
    output := [];
    var i := 0;
    assert data[0..] == data;
    while i + 1 < |data|
      invariant i <= |data|
      invariant Decode16(data) == output + Decode16(data[i..])
    {
      ghost var rest := data[i..];
      assert rest[2..] == data[i + 2..];
      var codeUnit := CodeUnit(data[i], data[i + 1]);
      assert codeUnit == Unit(rest, 0);
      if High(codeUnit) {
        if i + 3 < |data| {
          var low := CodeUnit(data[i + 2], data[i + 3]);
          assert low == Unit(rest, 2) && rest[4..] == data[i + 4..];
          if Low(low) {
            var c := 0x1_0000 + (codeUnit - 0xd800) * 1024 + (low - 0xdc00);
            assert output + ([c] + Decode16(data[i + 4..])) == (output + [c]) + Decode16(data[i + 4..]);
            output := output + [c];
            i := i + 4;
            continue;
          }
        }
        i := i + 2;
        continue;
      }
      if Low(codeUnit) {
        i := i + 2;
        continue;
      }
      assert output + ([codeUnit] + Decode16(data[i + 2..])) == (output + [codeUnit]) + Decode16(data[i + 2..]);
      output := output + [codeUnit];
      i := i + 2;
    }
    assert output + [] == output;
  }

  lemma Character16ComesBack(c: int, rest: bytes)
    requires IsScalar(c)
    ensures Char16Len(Encode16(c) + rest) == |Encode16(c)| > 0
    ensures Code16(Encode16(c) + rest) == c
  {
    var bs := Encode16(c) + rest;
    assert forall k :: 0 <= k < |Encode16(c)| ==> bs[k] == Encode16(c)[k];
  }

  lemma Character16GoesBack(bs: bytes)
    requires Char16Len(bs) > 0
    ensures IsScalar(Code16(bs)) && Encode16(Code16(bs)) == bs[..Char16Len(bs)]
  {
    hide CodeUnit, Code16, Encode16;
    if Char16Len(bs) == 2 {
      OneUnitBack(bs);
    } else {
      TwoUnitsBack(bs);
    }
  }

  lemma UnitGoesBack(low: byte, high: byte)
    ensures 0 <= CodeUnit(low, high) < 0x1_0000
    ensures CodeUnit(low, high) % 256 == low && CodeUnit(low, high) / 256 == high
  {
  }

  lemma OneUnitBack(bs: bytes)
    requires Char16Len(bs) == 2
    ensures IsScalar(Code16(bs)) && Encode16(Code16(bs)) == bs[..2]
  {
    hide CodeUnit;
    UnitGoesBack(bs[0], bs[1]);
  }

  lemma TwoUnitsBack(bs: bytes)
    requires Char16Len(bs) > 2
    ensures Char16Len(bs) == 4 && IsScalar(Code16(bs)) && Encode16(Code16(bs)) == bs[..4]
  {
    hide CodeUnit;
    UnitGoesBack(bs[0], bs[1]);
    UnitGoesBack(bs[2], bs[3]);
    var hi, lo := Unit(bs, 0), Unit(bs, 2);
    var v := (hi - 0xd800) * 1024 + (lo - 0xdc00);
    assert v / 1024 == hi - 0xd800 && v % 1024 == lo - 0xdc00;
  }

  lemma {:induction false} Decode16InvertsEncode16(cs: seq<int>)
    requires AllScalars(cs)
    ensures Decode16(EncodeAll16(cs)) == cs && WellFormed16(EncodeAll16(cs))
    decreases |cs|
  {
    hide Char16Len, Code16, Encode16;
    if cs != [] {
      var rest := EncodeAll16(cs[1..]);
      Character16ComesBack(cs[0], rest);
      CharsAreUnits(Encode16(cs[0]) + rest);
      assert (Encode16(cs[0]) + rest)[|Encode16(cs[0])|..] == rest;
      Decode16InvertsEncode16(cs[1..]);
    }
  }

  lemma CharsAreUnits(bs: bytes)
    ensures Char16Len(bs) > 0 ==> |bs| >= 2
  {
  }

  lemma {:induction false} Encode16InvertsDecode16Iff(bs: bytes)
    ensures AllScalars(Decode16(bs))
    ensures |EncodeAll16(Decode16(bs))| <= |bs|
    ensures EncodeAll16(Decode16(bs)) == bs <==> WellFormed16(bs)
    ensures |EncodeAll16(Decode16(bs))| == |bs| <==> WellFormed16(bs)
    decreases |bs|
  {
    hide Code16, Encode16, Char16Len;
    CharsAreUnits(bs);
    if |bs| >= 2 {
      var n := Char16Len(bs);
      if n > 0 {
        Character16GoesBack(bs);
        Encode16InvertsDecode16Iff(bs[n..]);
        assert Decode16(bs)[0] == Code16(bs) && Decode16(bs)[1..] == Decode16(bs[n..]);
        assert bs == bs[..n] + bs[n..];
        assert bs[..n] + EncodeAll16(Decode16(bs[n..])) == bs ==> EncodeAll16(Decode16(bs[n..])) == bs[n..] by {
          assert (bs[..n] + EncodeAll16(Decode16(bs[n..])))[n..] == EncodeAll16(Decode16(bs[n..]));
        }
      } else {
        Encode16InvertsDecode16Iff(bs[2..]);
      }
    }
  }

  // ---- what is dropped, and that nothing else is -------------------------------

  /** No character begins in the one part and ends in the other. */
  ghost predicate NoneStraddles(a: bytes, b: bytes) {
    forall i :: 0 <= i < |a| ==> i + CharLen((a + b)[i..]) <= |a|
  }

  lemma CharIsLocal(a: bytes, b: bytes)
    requires CharLen(a + b) <= |a|
    ensures CharLen(a) == CharLen(a + b)
    ensures CharLen(a) > 0 ==> CodePoint(a) == CodePoint(a + b)
  {
    if a != [] {
      assert (a + b)[0] == a[0];
    }
  }

  /** Decoding goes through a cut that splits no character, whatever else stands around it. */
  lemma {:induction false} DecodeSplits(a: bytes, b: bytes)
    requires NoneStraddles(a, b)
    ensures Decode(a + b) == Decode(a) + Decode(b)
    decreases |a|
  {
    hide CharLen, CodePoint;
    if a == [] {
      assert a + b == b;
    } else {
      assert (a + b)[0..] == a + b;
      CharIsLocal(a, b);
      var n := if CharLen(a) > 0 then CharLen(a) else 1;
      assert (a + b)[n..] == a[n..] + b;
      forall i | 0 <= i < |a[n..]|
        ensures i + CharLen((a[n..] + b)[i..]) <= |a[n..]|
      {
        assert (a[n..] + b)[i..] == (a + b)[n + i..];
      }
      DecodeSplits(a[n..], b);
    }
  }

  /** A byte outside ASCII gives nothing by itself. */
  lemma StrayByteIsDropped(b: byte)
    ensures Decode([b]) == if b < 0x80 then [b] else []
  {
    assert [b][1..] == [];
  }

  /** The cut is between two units and splits no pair. */
  predicate SplitsNoPair(a: bytes, b: bytes) {
    |a| % 2 == 0 && (|a| >= 2 && |b| >= 2 && High(Unit(a, |a| - 2)) ==> !Low(Unit(b, 0)))
  }

  lemma FirstCharacter16(a: bytes, b: bytes)
    requires SplitsNoPair(a, b) && a != []
    ensures |a| >= 2 && Char16Len(a + b) == Char16Len(a)
    ensures Char16Len(a) > 0 ==> Code16(a + b) == Code16(a)
  {
    hide CodeUnit;
    assert Unit(a + b, 0) == Unit(a, 0);
    if |a| >= 4 {
      assert Unit(a + b, 2) == Unit(a, 2);
    } else if |b| >= 2 {
      assert Unit(a + b, 2) == Unit(b, 0);
    }
  }

  lemma StillNoPair(a: bytes, b: bytes, n: nat)
    requires SplitsNoPair(a, b) && n % 2 == 0 && n <= |a|
    ensures SplitsNoPair(a[n..], b)
  {
    hide CodeUnit;
  }

  lemma EvenCharacters(bs: bytes)
    ensures Char16Len(bs) % 2 == 0
  {
    hide CodeUnit;
  }

  /** Decoding UTF-16LE goes through such a cut. */
  lemma {:induction false} Decode16Splits(a: bytes, b: bytes)
    requires SplitsNoPair(a, b)
    ensures Decode16(a + b) == Decode16(a) + Decode16(b)
    decreases |a|
  {
    hide Char16Len, Code16, SplitsNoPair;
    if a == [] {
      assert a + b == b;
    } else {
      FirstCharacter16(a, b);
      EvenCharacters(a);
      var n := if Char16Len(a) > 0 then Char16Len(a) else 2;
      assert (a + b)[n..] == a[n..] + b;
      StillNoPair(a, b, n);
      Decode16Splits(a[n..], b);
    }
  }

  /** A unit by itself is its code point, or nothing if it is a surrogate; so is an odd byte nothing. */
  lemma LoneUnit(low: byte, high: byte)
    ensures var u := CodeUnit(low, high); Decode16([low, high]) == if High(u) || Low(u) then [] else [u]
    ensures Decode16([low]) == []
  {
    assert [low, high][2..] == [];
  }
}
