// packages/minidb/src/codec.ts: batch bodies, their printer and their two readers.
module Batch {
  import opened Wrappers
  import opened Bytes
  import opened FrameCodec

  const SUB_HEADER: nat := 1 + 2 + 4 + 4 + 8

  datatype BatchOp = BatchOp(typ: int, key: bytes, value: Option<bytes>, meta: Option<bytes>, expireAt: int)

  datatype BatchOpRef = BatchOpRef(
    typ: byte, key: bytes, meta: Option<bytes>, expireAt: int, valueOff: nat, valLen: nat)

  datatype BatchError =
    | CountTruncated | HeaderTruncated | UnknownType | PayloadTruncated | TrailingBytes
    | TypeNotAllowed | OutOfRange

  // ---- what a body looks like ----------------------------------------------

  /** An op as stored. */
  datatype RawOp = RawOp(typ: byte, stamp: bytes, key: bytes, value: bytes, meta: bytes)

  predicate OpFits(r: RawOp) {
    && (r.typ == TYPE_SET || r.typ == TYPE_DEL) && |r.stamp| == 8
    && |r.key| <= MAX_KEY_LEN && |r.value| <= MAX_VAL_LEN && |r.meta| <= MAX_VAL_LEN
  }

  function OpHeader(r: RawOp): bytes {
    [r.typ] + LE(|r.key|, 2) + LE(|r.value|, 4) + LE(|r.meta|, 4) + r.stamp
  }

  function OpLayout(r: RawOp): bytes {
    OpHeader(r) + r.key + r.value + r.meta
  }

  function OpSize(r: RawOp): nat {
    SUB_HEADER + |r.key| + |r.value| + |r.meta|
  }

  function OpsLayout(rs: seq<RawOp>): bytes {
    if rs == [] then [] else OpLayout(rs[0]) + OpsLayout(rs[1..])
  }

  ghost predicate AllOpsFit(rs: seq<RawOp>) {
    forall r :: r in rs ==> OpFits(r)
  }

  function BodyLayout(rs: seq<RawOp>): bytes {
    LE(|rs|, 2) + OpsLayout(rs)
  }

  // ---- the bytes of a body -----------------------------------------------------

  /** Byte by byte: the type, the three lengths, the eight bytes of expireAt, the key, the value and the
      meta bytes. */
  lemma OpBytes(r: RawOp)
    requires OpFits(r)
    ensures var o, k, v := OpLayout(r), |r.key|, |r.value|;
            && |o| == 19 + k + v + |r.meta|
            && o[0] == r.typ && NumberAt(o, 1, k, 2) && NumberAt(o, 3, v, 4) && NumberAt(o, 7, |r.meta|, 4)
            && o[11..19] == r.stamp
            && o[19..19 + k] == r.key && o[19 + k..19 + k + v] == r.value && o[19 + k + v..] == r.meta
  {
    hide NumberAt, LE, OpHeader;
    var o := OpLayout(r);
    OpParts(o, 0, r);
    assert o[0..0 + |o|] == o;
    OpHeaderParts(o, 0, r);
    LEIsNumber(o, 1, |r.key|, 2);
    LEIsNumber(o, 3, |r.value|, 4);
    LEIsNumber(o, 7, |r.meta|, 4);
    assert o[0..1] == [r.typ];
  }

  /** A body is the number of its ops in two bytes, and the ops one after the other. */
  lemma BodyBytes(rs: seq<RawOp>)
    ensures |BodyLayout(rs)| >= 2 && NumberAt(BodyLayout(rs), 0, |rs|, 2)
    ensures BodyLayout(rs)[2..] == OpsLayout(rs)
  {
    assert BodyLayout(rs)[0..2] == LE(|rs|, 2);
    LEIsNumber(BodyLayout(rs), 0, |rs|, 2);
  }

  // ---- reading one op ------------------------------------------------------

  /** The op at offset o and where the next one starts. */
  function ReadOp(body: bytes, o: nat): (r: Result<(RawOp, nat), BatchError>)
    ensures r.Ok? ==> o < r.value.1 <= |body|
  {
    if o + SUB_HEADER > |body| then Err(HeaderTruncated)
    else if body[o] != TYPE_SET && body[o] != TYPE_DEL then Err(UnknownType)
    else
      var keyLen, valLen, metaLen := Field(body, o + 1, 2), Field(body, o + 3, 4), Field(body, o + 7, 4);
      var k := o + SUB_HEADER;
      if k + keyLen + valLen + metaLen > |body| then Err(PayloadTruncated)
      else
        var v := k + keyLen;
        var m := v + valLen;
        var e := m + metaLen;
        Ok((RawOp(body[o], body[o + 11..o + 19], body[k..v], body[v..m], body[m..e]), e))
  }

  lemma OpHeaderParts(buf: bytes, pos: nat, r: RawOp)
    requires |r.stamp| == 8
    ensures |OpHeader(r)| == SUB_HEADER
    ensures HasAt(buf, pos, OpHeader(r)) <==>
              && HasAt(buf, pos, [r.typ])
              && HasAt(buf, pos + 1, LE(|r.key|, 2)) && HasAt(buf, pos + 3, LE(|r.value|, 4))
              && HasAt(buf, pos + 7, LE(|r.meta|, 4)) && HasAt(buf, pos + 11, r.stamp)
  {
    var p1 := [r.typ] + LE(|r.key|, 2);
    var p2 := p1 + LE(|r.value|, 4);
    var p3 := p2 + LE(|r.meta|, 4);
    SplitAt(buf, pos, p3, r.stamp);
    SplitAt(buf, pos, p2, LE(|r.meta|, 4));
    SplitAt(buf, pos, p1, LE(|r.value|, 4));
    SplitAt(buf, pos, [r.typ], LE(|r.key|, 2));
  }

  lemma OpParts(buf: bytes, pos: nat, r: RawOp)
    requires |r.stamp| == 8
    ensures |OpLayout(r)| == OpSize(r)
    ensures HasAt(buf, pos, OpLayout(r)) <==>
              && HasAt(buf, pos, OpHeader(r)) && HasAt(buf, pos + SUB_HEADER, r.key)
              && HasAt(buf, pos + SUB_HEADER + |r.key|, r.value)
              && HasAt(buf, pos + SUB_HEADER + |r.key| + |r.value|, r.meta)
  {
    OpHeaderParts(buf, pos, r);
    SplitAt(buf, pos, OpHeader(r) + r.key + r.value, r.meta);
    SplitAt(buf, pos, OpHeader(r) + r.key, r.value);
    SplitAt(buf, pos, OpHeader(r), r.key);
  }

  lemma ReadsOpLayout(body: bytes, o: nat, r: RawOp)
    requires OpFits(r) && HasAt(body, o, OpLayout(r))
    ensures ReadOp(body, o) == Ok((r, o + OpSize(r)))
  {
    hide Field, LE, OpLayout, OpHeader;
    OpParts(body, o, r);
    OpHeaderParts(body, o, r);
    Pow256s();
    FieldOfLE(body, o + 1, |r.key|, 2);
    FieldOfLE(body, o + 3, |r.value|, 4);
    FieldOfLE(body, o + 7, |r.meta|, 4);
    assert body[o..o + 1] == [r.typ];
  }

  lemma ReadOpIsLayout(body: bytes, o: nat)
    requires ReadOp(body, o).Ok?
    ensures var (r, e) := ReadOp(body, o).value;
            OpFits(r) && e == o + OpSize(r) && HasAt(body, o, OpLayout(r))
  {
    hide Field, LE, OpLayout, OpHeader;
    var (r, e) := ReadOp(body, o).value;
    Pow256s();
    LEOfField(body, o + 1, 2);
    LEOfField(body, o + 3, 4);
    LEOfField(body, o + 7, 4);
    assert body[o..o + 1] == [r.typ];
    OpHeaderParts(body, o, r);
    OpParts(body, o, r);
  }

  // ---- reading a body ------------------------------------------------------

  function ReadOps(body: bytes, o: nat, count: nat): Result<(seq<RawOp>, nat), BatchError>
    decreases count
  {
    if count == 0 then Ok(([], o))
    else
      match ReadOp(body, o)
      case Err(e) => Err(e)
      case Ok((r, next)) =>
        match ReadOps(body, next, count - 1)
        case Err(e) => Err(e)
        case Ok((rs, end)) => Ok(([r] + rs, end))
  }

  /** The ops of a body, all or nothing: a body ends exactly after its last op. */
  function ReadBody(body: bytes): Result<seq<RawOp>, BatchError> {
    if |body| < 2 then Err(CountTruncated)
    else
      match ReadOps(body, 2, Field(body, 0, 2))
      case Err(e) => Err(e)
      case Ok((rs, end)) => if end != |body| then Err(TrailingBytes) else Ok(rs)
  }

  lemma {:induction false} ReadsOpsLayout(body: bytes, o: nat, rs: seq<RawOp>)
    requires AllOpsFit(rs) && HasAt(body, o, OpsLayout(rs))
    ensures ReadOps(body, o, |rs|) == Ok((rs, o + |OpsLayout(rs)|))
    decreases |rs|
  {
    hide ReadOp, OpLayout, HasAt;
    if rs != [] {
      var r := rs[0];
      assert r in rs;
      SplitAt(body, o, OpLayout(r), OpsLayout(rs[1..]));
      OpParts(body, o, r);
      ReadsOpLayout(body, o, r);
      ReadsOpsLayout(body, o + OpSize(r), rs[1..]);
      assert [r] + rs[1..] == rs;
    }
  }

  lemma {:induction false} ReadOpsIsLayout(body: bytes, o: nat, count: nat)
    requires ReadOps(body, o, count).Ok?
    ensures var (rs, end) := ReadOps(body, o, count).value;
            && |rs| == count && AllOpsFit(rs)
            && end == o + |OpsLayout(rs)| && (o <= |body| ==> HasAt(body, o, OpsLayout(rs)))
    decreases count
  {
    hide ReadOp, OpLayout;
    if count > 0 {
      var (r, next) := ReadOp(body, o).value;
      ReadOpIsLayout(body, o);
      OpParts(body, o, r);
      ReadOpsIsLayout(body, next, count - 1);
      var (rs, end) := ReadOps(body, o, count).value;
      assert rs[0] == r && rs[1..] == ReadOps(body, next, count - 1).value.0;
      SplitAt(body, o, OpLayout(r), OpsLayout(rs[1..]));
    }
  }

  /** The reader accepts exactly the bodies the printer can write, and reads them as what they
      were written from. */
  lemma BodiesAreLayouts(body: bytes, rs: seq<RawOp>)
    ensures ReadBody(body) == Ok(rs) <==> AllOpsFit(rs) && |rs| <= 0xffff && body == BodyLayout(rs)
  {
    hide ReadOps, OpsLayout, ReadOp;
    Pow256s();
    if ReadBody(body) == Ok(rs) {
      ReadOpsIsLayout(body, 2, Field(body, 0, 2));
      FromLERoundTrip(body[0..2]);
      FromLEBound(body[0..2]);
      assert body == body[0..2] + body[2..];
    }
    if AllOpsFit(rs) && |rs| <= 0xffff && body == BodyLayout(rs) {
      LERoundTrip(|rs|, 2);
      assert body[0..2] == LE(|rs|, 2) && body[2..2 + |OpsLayout(rs)|] == OpsLayout(rs);
      ReadsOpsLayout(body, 2, rs);
    }
  }

  // ---- the two readers -----------------------------------------------------

  function MetaOf(r: RawOp): Option<bytes> {
    if r.meta == [] then None else Some(r.meta)
  }

  function ToOp(r: RawOp): BatchOp
    requires |r.stamp| == 8
  {
    BatchOp(r.typ, r.key, Some(r.value), MetaOf(r), ToNumber(FromInt64LE(r.stamp)))
  }

  function ToOps(rs: seq<RawOp>): seq<BatchOp>
    requires AllOpsFit(rs)
  {
    if rs == [] then [] else assert rs[0] in rs; [ToOp(rs[0])] + ToOps(rs[1..])
  }

  /** The reference to an op laid out at file offset `at`. */
  function ToRef(r: RawOp, at: nat): BatchOpRef
    requires |r.stamp| == 8
  {
    BatchOpRef(r.typ, r.key, MetaOf(r), ToNumber(FromInt64LE(r.stamp)), at + SUB_HEADER + |r.key|, |r.value|)
  }

  /** References to ops laid out from file offset `at` on. */
  function ToRefs(rs: seq<RawOp>, at: nat): seq<BatchOpRef>
    requires AllOpsFit(rs)
  {
    if rs == [] then []
    else
      assert rs[0] in rs;
      [ToRef(rs[0], at)] + ToRefs(rs[1..], at + OpSize(rs[0]))
  }

  /** `rs` read so far, ops i.. still to read from o. */
  ghost predicate ReadSoFar(body: bytes, count: nat, i: nat, rs: seq<RawOp>, o: nat) {
    && i <= count && 2 <= o
    && match ReadOps(body, o, count - i)
       case Err(e) => ReadOps(body, 2, count) == Err(e)
       case Ok((more, end)) => ReadOps(body, 2, count) == Ok((rs + more, end))
  }

  lemma ReadsOn(body: bytes, count: nat, i: nat, rs: seq<RawOp>, o: nat)
    requires ReadSoFar(body, count, i, rs, o) && i < count
    ensures match ReadOp(body, o)
            case Err(e) => ReadOps(body, 2, count) == Err(e)
            case Ok((r, next)) => OpFits(r) && next == o + OpSize(r) && ReadSoFar(body, count, i + 1, rs + [r], next)
  {
    hide ReadOp;
    if ReadOp(body, o).Ok? {
      var (r, next) := ReadOp(body, o).value;
      ReadOpIsLayout(body, o);
      if ReadOps(body, next, count - i - 1).Ok? {
        var more := ReadOps(body, next, count - i - 1).value.0;
        assert rs + ([r] + more) == (rs + [r]) + more;
      }
    }
  }

  lemma ReadAll(body: bytes, count: nat, rs: seq<RawOp>, o: nat)
    requires ReadSoFar(body, count, count, rs, o)
    ensures ReadOps(body, 2, count) == Ok((rs, o))
  {
    assert rs + [] == rs;
  }

  lemma {:induction false} ToOpsSnoc(rs: seq<RawOp>, r: RawOp, at: nat)
    requires AllOpsFit(rs) && OpFits(r)
    ensures AllOpsFit(rs + [r])
    ensures ToOps(rs + [r]) == ToOps(rs) + [ToOp(r)]
    ensures ToRefs(rs + [r], at) == ToRefs(rs, at) + ToRefs([r], at + TotalOpSize(rs))
    decreases |rs|
  {
    hide ToOp, OpFits;
    if rs != [] {
      assert (rs + [r])[1..] == rs[1..] + [r];
      ToOpsSnoc(rs[1..], r, at + OpSize(rs[0]));
    }
  }

  function TotalOpSize(rs: seq<RawOp>): nat {
    if rs == [] then 0 else OpSize(rs[0]) + TotalOpSize(rs[1..])
  }

  lemma {:induction false} TotalOpSizeSnoc(rs: seq<RawOp>, r: RawOp)
    ensures TotalOpSize(rs + [r]) == TotalOpSize(rs) + OpSize(r)
    decreases |rs|
  {
    if rs != [] {
      assert (rs + [r])[1..] == rs[1..] + [r];
      TotalOpSizeSnoc(rs[1..], r);
    }
  }

  /** The fields of the op at o, checked in the order they are read. */
  method NextOp(body: bytes, o: nat) returns (r: Result<(RawOp, nat), BatchError>)
    ensures r == ReadOp(body, o)
  {
    var p := o;
    if p + SUB_HEADER > |body| { return Err(HeaderTruncated); }
    var typ := body[p]; p := p + 1;
    if typ != TYPE_SET && typ != TYPE_DEL { return Err(UnknownType); }
    var keyLen := Field(body, p, 2); p := p + 2;
    var valLen := Field(body, p, 4); p := p + 4;
    var metaLen := Field(body, p, 4); p := p + 4;
    var stamp := body[p..p + 8]; p := p + 8;
    if p + keyLen + valLen + metaLen > |body| { return Err(PayloadTruncated); }
    var key := body[p..p + keyLen]; p := p + keyLen;
    var value := body[p..p + valLen]; p := p + valLen;
    var meta := body[p..p + metaLen]; p := p + metaLen;
    r := Ok((RawOp(typ, stamp, key, value, meta), p));
  }

  method DecodeBatchOps(body: bytes) returns (r: Result<seq<BatchOp>, BatchError>)
    ensures match ReadBody(body)
            case Err(e) => r == Err(e)
            case Ok(rs) => AllOpsFit(rs) && r == Ok(ToOps(rs))
  {
    hide ReadOp, ReadOps, ToOp, OpFits;
    if |body| < 2 { return Err(CountTruncated); }
    var ops: seq<BatchOp> := [];
    var o := 2;
    var count := Field(body, 0, 2);
    ghost var rs: seq<RawOp> := [];
    StartsReading(body, count);
    for i := 0 to count
      invariant ReadSoFar(body, count, i, rs, o) && AllOpsFit(rs) && ops == ToOps(rs)
    {
      ReadsOn(body, count, i, rs, o);
      var n := NextOp(body, o);
      if n.Err? { return Err(n.error); }
      var raw := n.value.0;
      StampSize(raw);
      ToOpsSnoc(rs, raw, 0);
      rs := rs + [raw];
      ops := ops + [ToOp(raw)];
      o := n.value.1;
    }
    ReadAll(body, count, rs, o);
    if o != |body| { return Err(TrailingBytes); }
    r := Ok(ops);
  }

  lemma StartsReading(body: bytes, count: nat)
    ensures ReadSoFar(body, count, 0, [], 2)
  {
    hide ReadOps;
    if ReadOps(body, 2, count).Ok? {
      assert [] + ReadOps(body, 2, count).value.0 == ReadOps(body, 2, count).value.0;
    }
  }

  lemma StampSize(r: RawOp)
    requires OpFits(r)
    ensures |r.stamp| == 8
  {
  }

  /** The same reader, with the values left where they are: bodyOff is where the body starts. */
  method ScanBatchOpRefs(body: bytes, bodyOff: nat) returns (r: Result<seq<BatchOpRef>, BatchError>)
    ensures match ReadBody(body)
            case Err(e) => r == Err(e)
            case Ok(rs) => AllOpsFit(rs) && r == Ok(ToRefs(rs, bodyOff + 2))
  {
    hide ReadOp, ReadOps, OpFits;
    if |body| < 2 { return Err(CountTruncated); }
    var ops: seq<BatchOpRef> := [];
    var o := 2;
    var count := Field(body, 0, 2);
    ghost var rs: seq<RawOp> := [];
    StartsReading(body, count);
    for i := 0 to count
      invariant ReadSoFar(body, count, i, rs, o) && AllOpsFit(rs)
      invariant ops == ToRefs(rs, bodyOff + 2) && o == 2 + TotalOpSize(rs)
    {
      ReadsOn(body, count, i, rs, o);
      var n := NextOp(body, o);
      if n.Err? { return Err(n.error); }
      var raw := n.value.0;
      StampSize(raw);
      ToOpsSnoc(rs, raw, bodyOff + 2);
      TotalOpSizeSnoc(rs, raw);
      rs := rs + [raw];
      ops := ops + [BatchOpRef(raw.typ, raw.key, MetaOf(raw), ToNumber(FromInt64LE(raw.stamp)),
                               bodyOff + o + SUB_HEADER + |raw.key|, |raw.value|)];
      o := n.value.1;
    }
    ReadAll(body, count, rs, o);
    if o != |body| { return Err(TrailingBytes); }
    r := Ok(ops);
  }

  /** The two readers accept the same bodies; the k-th reference names the k-th op, and its
      place in the file holds the value the other reader copies. */
  lemma RefsPointAtValues(file: bytes, bodyOff: nat, body: bytes, rs: seq<RawOp>, k: nat)
    requires HasAt(file, bodyOff, body) && ReadBody(body) == Ok(rs) && k < |rs|
    ensures AllOpsFit(rs) && |ToOps(rs)| == |ToRefs(rs, bodyOff + 2)| == |rs|
    ensures SameOp(file, ToOps(rs)[k], ToRefs(rs, bodyOff + 2)[k])
  {
    hide ReadBody, OpsLayout, ToOp;
    BodiesAreLayouts(body, rs);
    SplitAt(file, bodyOff, LE(|rs|, 2), OpsLayout(rs));
    RefsFollowLayout(file, bodyOff + 2, rs, k);
  }

  ghost predicate SameOp(file: bytes, op: BatchOp, ref: BatchOpRef) {
    && op.value.Some? && ref.valLen == |op.value.value| && HasAt(file, ref.valueOff, op.value.value)
    && ref.typ == op.typ && ref.key == op.key && ref.meta == op.meta && ref.expireAt == op.expireAt
  }

  lemma RefNamesOp(file: bytes, at: nat, r: RawOp)
    requires OpFits(r) && HasAt(file, at, OpLayout(r))
    ensures SameOp(file, ToOp(r), ToRef(r, at))
  {
    hide OpLayout, OpHeader, LE, ToNumber, FromInt64LE;
    OpParts(file, at, r);
  }

  lemma {:induction false} RefsFollowLayout(file: bytes, at: nat, rs: seq<RawOp>, k: nat)
    requires AllOpsFit(rs) && HasAt(file, at, OpsLayout(rs))
    ensures |ToOps(rs)| == |ToRefs(rs, at)| == |rs|
    ensures k < |rs| ==> SameOp(file, ToOps(rs)[k], ToRefs(rs, at)[k])
    decreases |rs|
  {
    if rs != [] {
      hide OpLayout, ToOp, ToRef, SameOp, HasAt;
      var r := rs[0];
      assert r in rs;
      OpParts([], 0, r);
      SplitAt(file, at, OpLayout(r), OpsLayout(rs[1..]));
      RefNamesOp(file, at, r);
      RefsFollowLayout(file, at + OpSize(r), rs[1..], if k > 0 then k - 1 else 0);
    }
  }

  // ---- the printer ---------------------------------------------------------

  /** The op as stored, or why it is refused. */
  function FromOp(op: BatchOp): (r: Result<RawOp, BatchError>)
    ensures r.Ok? ==> OpFits(r.value)
  {
    if op.typ != TYPE_SET && op.typ != TYPE_DEL then Err(TypeNotAllowed)
    else if |op.key| > MAX_KEY_LEN || |OrEmpty(op.value)| > MAX_VAL_LEN || |OrEmpty(op.meta)| > MAX_VAL_LEN
            || !IsInt64(op.expireAt) then Err(OutOfRange)
    else Ok(RawOp(op.typ, Int64LE(op.expireAt), op.key, OrEmpty(op.value), OrEmpty(op.meta)))
  }

  function FromOps(ops: seq<BatchOp>): (r: Result<seq<RawOp>, BatchError>)
    ensures r.Ok? ==> |r.value| == |ops| && forall x :: x in r.value ==> OpFits(x)
  {
    if ops == [] then Ok([])
    else
      match FromOp(ops[0])
      case Err(e) => Err(e)
      case Ok(r) =>
        match FromOps(ops[1..])
        case Err(e) => Err(e)
        case Ok(rs) => Ok([r] + rs)
  }

  predicate TypesAllowed(ops: seq<BatchOp>) {
    forall op :: op in ops ==> op.typ == TYPE_SET || op.typ == TYPE_DEL
  }

  /** What the printer makes of a list of ops: types are checked first, over the whole list. */
  function Encoded(ops: seq<BatchOp>): Result<bytes, BatchError> {
    if !TypesAllowed(ops) then Err(TypeNotAllowed)
    else if |ops| > 0xffff || FromOps(ops).Err? then Err(OutOfRange)
    else Ok(BodyLayout(FromOps(ops).value))
  }

  function OpSpace(op: BatchOp): nat {
    SUB_HEADER + |op.key| + |OrEmpty(op.value)| + |OrEmpty(op.meta)|
  }

  function OpsSpace(ops: seq<BatchOp>): nat {
    if ops == [] then 0 else OpSpace(ops[0]) + OpsSpace(ops[1..])
  }

  /** `rs` made from the first i ops, the rest still to be made. */
  ghost predicate MadeSoFar(ops: seq<BatchOp>, i: nat, rs: seq<RawOp>) {
    && i <= |ops|
    && match FromOps(ops[i..])
       case Err(e) => FromOps(ops) == Err(e)
       case Ok(more) => FromOps(ops) == Ok(rs + more)
  }

  lemma MakesOn(ops: seq<BatchOp>, i: nat, rs: seq<RawOp>)
    requires MadeSoFar(ops, i, rs) && i < |ops|
    ensures match FromOp(ops[i])
            case Err(e) => FromOps(ops) == Err(e)
            case Ok(r) => MadeSoFar(ops, i + 1, rs + [r])
  {
    hide FromOp, FromOps;
    MakesFirst(ops, i);
    if FromOp(ops[i]).Ok? && FromOps(ops[i + 1..]).Ok? {
      var r, more := FromOp(ops[i]).value, FromOps(ops[i + 1..]).value;
      assert rs + ([r] + more) == (rs + [r]) + more;
    }
  }

  lemma MakesFirst(ops: seq<BatchOp>, i: nat)
    requires i < |ops|
    ensures FromOps(ops[i..]) ==
              if FromOp(ops[i]).Err? then Err(FromOp(ops[i]).error)
              else if FromOps(ops[i + 1..]).Err? then FromOps(ops[i + 1..])
              else Ok([FromOp(ops[i]).value] + FromOps(ops[i + 1..]).value)
  {
    hide FromOp;
    assert ops[i..][0] == ops[i] && ops[i..][1..] == ops[i + 1..];
  }

  lemma SpaceFirst(ops: seq<BatchOp>, i: nat)
    requires i < |ops|
    ensures OpsSpace(ops[i..]) == OpSpace(ops[i]) + OpsSpace(ops[i + 1..])
  {
    assert ops[i..][0] == ops[i] && ops[i..][1..] == ops[i + 1..];
  }

  lemma MakesNothing(ops: seq<BatchOp>)
    ensures MadeSoFar(ops, 0, []) && ops[0..] == ops && OpsLayout([]) == []
  {
    assert ops[0..] == ops;
    if FromOps(ops).Ok? {
      assert [] + FromOps(ops).value == FromOps(ops).value;
    }
  }

  lemma MadeAll(ops: seq<BatchOp>, rs: seq<RawOp>)
    requires MadeSoFar(ops, |ops|, rs)
    ensures FromOps(ops) == Ok(rs)
  {
    assert rs + [] == rs;
  }

  lemma {:induction false} OpsLayoutSnoc(rs: seq<RawOp>, r: RawOp)
    ensures OpsLayout(rs + [r]) == OpsLayout(rs) + OpLayout(r)
    decreases |rs|
  {
    hide OpLayout;
    if rs == [] {
      assert [] + [r] == [r] && OpLayout(r) + [] == [] + OpLayout(r);
    } else {
      assert (rs + [r])[1..] == rs[1..] + [r];
      OpsLayoutSnoc(rs[1..], r);
    }
  }

  method CheckTypes(ops: seq<BatchOp>) returns (total: nat, allowed: bool)
    ensures allowed <==> TypesAllowed(ops)
    ensures allowed ==> total == 2 + OpsSpace(ops)
  {
    total := 2;
    assert ops[0..] == ops;
    for i := 0 to |ops|
      invariant total + OpsSpace(ops[i..]) == 2 + OpsSpace(ops)
      invariant forall k :: 0 <= k < i ==> ops[k].typ == TYPE_SET || ops[k].typ == TYPE_DEL
    {
      if ops[i].typ != TYPE_SET && ops[i].typ != TYPE_DEL {
        assert ops[i] in ops;
        return total, false;
      }
      SpaceFirst(ops, i);
      total := total + OpSpace(ops[i]);
    }
    allowed := true;
  }

  method PutOpHeader(body: array<byte>, o: nat, r: RawOp) returns (next: nat)
    requires OpFits(r) && o + SUB_HEADER <= body.Length
    modifies body
    ensures next == o + SUB_HEADER
    ensures body[..next] == old(body[..o]) + OpHeader(r)
  {
    hide LE;
    ghost var before := body[..o];
    next := Put(body, o, [r.typ]);
    next := Put(body, next, LE(|r.key|, 2));
    next := Put(body, next, LE(|r.value|, 4));
    assert body[..next] == before + ([r.typ] + LE(|r.key|, 2) + LE(|r.value|, 4));
    next := Put(body, next, LE(|r.meta|, 4));
    next := Put(body, next, r.stamp);
    assert body[..next] == before + OpHeader(r);
  }

  /** Writes one op at offset o, field by field. */
  method PutOp(body: array<byte>, o: nat, r: RawOp) returns (next: nat)
    requires OpFits(r) && o + OpSize(r) <= body.Length
    modifies body
    ensures next == o + OpSize(r)
    ensures body[..next] == old(body[..o]) + OpLayout(r)
  {
    hide OpHeader;
    ghost var before := body[..o];
    next := PutOpHeader(body, o, r);
    next := Put(body, next, r.key);
    next := Put(body, next, r.value);
    next := Put(body, next, r.meta);
    assert body[..next] == before + OpLayout(r);
  }

  method PrintOps(ops: seq<BatchOp>, body: array<byte>, start: nat) returns (ok: bool)
    requires TypesAllowed(ops) && start + OpsSpace(ops) == body.Length
    modifies body
    ensures ok <==> FromOps(ops).Ok?
    ensures ok ==> body[..] == old(body[..start]) + OpsLayout(FromOps(ops).value)
  {
    hide FromOp, FromOps, OpsLayout, OpLayout, OpsSpace, OpSpace, TypesAllowed, MadeSoFar, OpFits, OpSize;
    ghost var before := body[..start];
    ghost var rs: seq<RawOp> := [];
    MakesNothing(ops);
    NoSpace(ops[|ops|..]);
    var o := start;
    assert before + [] == before;
    for i := 0 to |ops|
      invariant 0 <= o && o + OpsSpace(ops[i..]) == body.Length
      invariant MadeSoFar(ops, i, rs) && body[..o] == before + OpsLayout(rs)
    {
      MakesOn(ops, i, rs);
      SpaceFirst(ops, i);
      var raw := FromOp(ops[i]);
      if raw.Err? { return false; }
      PrintedSize(ops[i]);
      OpsLayoutSnoc(rs, raw.value);
      o := PutOp(body, o, raw.value);
      assert (before + OpsLayout(rs)) + OpLayout(raw.value) == before + OpsLayout(rs + [raw.value]);
      rs := rs + [raw.value];
    }
    MadeAll(ops, rs);
    assert body[..] == body[..o];
    ok := true;
  }

  method EncodeBatchOps(ops: seq<BatchOp>) returns (r: Result<bytes, BatchError>)
    ensures r == Encoded(ops)
  {
    hide FromOps, OpsLayout, OpsSpace, TypesAllowed, LE;
    var total, allowed := CheckTypes(ops);
    if !allowed { return Err(TypeNotAllowed); }
    var body := new byte[total];
    if |ops| > 0xffff { return Err(OutOfRange); }
    var o := Put(body, 0, LE(|ops|, 2));
    assert body[..0] == [] && body[..o] == LE(|ops|, 2);
    var ok := PrintOps(ops, body, o);
    if !ok { return Err(OutOfRange); }
    r := Ok(body[..]);
  }

  lemma NoSpace(ops: seq<BatchOp>)
    requires ops == []
    ensures OpsSpace(ops) == 0
  {
  }

  lemma PrintedSize(op: BatchOp)
    requires FromOp(op).Ok?
    ensures |OpLayout(FromOp(op).value)| == OpSize(FromOp(op).value) == OpSpace(op)
    ensures OpFits(FromOp(op).value)
  {
    OpParts([], 0, FromOp(op).value);
  }

  // ---- round trips ---------------------------------------------------------

  /** An op as it comes back: an absent value as an empty one, empty meta as absent, expireAt as
      the nearest double. */
  function Normal(op: BatchOp): BatchOp {
    BatchOp(op.typ, op.key, Some(OrEmpty(op.value)), if op.meta == Some([]) then None else op.meta,
            ToNumber(op.expireAt))
  }

  function NormalAll(ops: seq<BatchOp>): seq<BatchOp> {
    if ops == [] then [] else [Normal(ops[0])] + NormalAll(ops[1..])
  }

  lemma {:induction false} OpsComeBack(ops: seq<BatchOp>)
    requires FromOps(ops).Ok?
    ensures AllOpsFit(FromOps(ops).value) && ToOps(FromOps(ops).value) == NormalAll(ops)
  {
    if ops != [] {
      var r := FromOp(ops[0]).value;
      Int64RoundTrip(ops[0].expireAt);
      OpsComeBack(ops[1..]);
      assert FromOps(ops).value[0] == r && FromOps(ops).value[1..] == FromOps(ops[1..]).value;
    }
  }

  /** Decoding inverts encoding on every op list the printer accepts. */
  lemma EncodeThenDecode(ops: seq<BatchOp>)
    requires Encoded(ops).Ok?
    ensures var rs := FromOps(ops).value;
            ReadBody(Encoded(ops).value) == Ok(rs) && AllOpsFit(rs) && ToOps(rs) == NormalAll(ops)
  {
    OpsComeBack(ops);
    BodiesAreLayouts(Encoded(ops).value, FromOps(ops).value);
  }

  ghost predicate AllExact(rs: seq<RawOp>) {
    forall r :: r in rs && |r.stamp| == 8 ==> ToNumber(FromInt64LE(r.stamp)) == FromInt64LE(r.stamp)
  }

  /** Encoding inverts decoding byte for byte, on every accepted body in which each expireAt is
      a number a double holds exactly, and on no other. */
  lemma DecodeThenEncode(body: bytes, rs: seq<RawOp>)
    requires ReadBody(body) == Ok(rs)
    ensures AllOpsFit(rs)
    ensures Encoded(ToOps(rs)) == Ok(body) <==> AllExact(rs)
  {
    hide ReadBody, OpsLayout, FromOps;
    BodiesAreLayouts(body, rs);
    DecodedOps(rs);
    if Encoded(ToOps(rs)) == Ok(body) {
      BodiesAreLayouts(body, FromOps(ToOps(rs)).value);
      SameStamps(rs);
    }
    if AllExact(rs) {
      OpsGoBack(rs);
    }
  }

  /** A body that is not written back: one op whose expireAt is 2^53 + 1. */
  lemma InexactBodyDiffers()
    ensures var rs := [RawOp(TYPE_SET, Int64LE(TWO_53 + 1), [], [], [])];
            AllOpsFit(rs) && ReadBody(BodyLayout(rs)) == Ok(rs) && Encoded(ToOps(rs)) != Ok(BodyLayout(rs))
  {
    hide ReadBody, Encoded, ToOps, BodyLayout, ToNumber;
    var rs := [RawOp(TYPE_SET, Int64LE(TWO_53 + 1), [], [], [])];
    Int64RoundTrip(TWO_53 + 1);
    FirstInexact();
    BodiesAreLayouts(BodyLayout(rs), rs);
    assert rs[0] in rs;
    DecodeThenEncode(BodyLayout(rs), rs);
  }

  lemma {:induction false} DecodedOps(rs: seq<RawOp>)
    requires AllOpsFit(rs)
    ensures |ToOps(rs)| == |rs| && TypesAllowed(ToOps(rs))
  {
    if rs != [] {
      assert OpFits(rs[0]);
      DecodedOps(rs[1..]);
      assert forall op :: op in ToOps(rs) ==> op == ToOp(rs[0]) || op in ToOps(rs[1..]);
    }
  }

  lemma {:induction false} OpsGoBack(rs: seq<RawOp>)
    requires AllOpsFit(rs) && AllExact(rs)
    ensures FromOps(ToOps(rs)) == Ok(rs)
  {
    if rs != [] {
      var r := rs[0];
      assert r in rs;
      FromInt64RoundTrip(r.stamp);
      assert FromOp(ToOp(r)) == Ok(r);
      OpsGoBack(rs[1..]);
      assert ToOps(rs)[1..] == ToOps(rs[1..]);
      assert [r] + rs[1..] == rs;
    }
  }

  lemma {:induction false} SameStamps(rs: seq<RawOp>)
    requires AllOpsFit(rs) && FromOps(ToOps(rs)) == Ok(rs)
    ensures AllExact(rs)
  {
    if rs != [] {
      var r := rs[0];
      assert r in rs;
      assert ToOps(rs)[0] == ToOp(r) && ToOps(rs)[1..] == ToOps(rs[1..]);
      var back := FromOps(ToOps(rs)).value;
      assert back[0] == FromOp(ToOp(r)).value && back[1..] == FromOps(ToOps(rs[1..])).value;
      Int64RoundTrip(ToNumber(FromInt64LE(r.stamp)));
      SameStamps(rs[1..]);
    }
  }
}
