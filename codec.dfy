/**
 * The binary tree format of the grammar compiler (`TreeNode.to_bytes`,
 * `TreeNode.from_bytes`, `TreeNode.__str__` and `bytes_to_c_str` in
 * grammars/f1_c_gen.py). A node is written as four unsigned 32-bit
 * little-endian fields — node type, rule id, subnode count, value length —
 * then the value's bytes, then each subnode in order. Values are encoded
 * as Latin-1 but decoded as UTF-8.
 */
module TreeCodec {
  import opened Wrappers
  import opened Bytes

  /** A `TreeNode` as the compiler builds it; parent links are not part of the format. */
  datatype PyTree = PyTree(nodeType: int, ruleId: int, val: string, subnodes: seq<PyTree>)

  /** Why encoding or decoding stops: `OverflowError`, `UnicodeEncodeError`, `UnicodeDecodeError`. */
  datatype CodecError = Overflow | NotLatin1 | BadUtf8

  /** The character set a decoder applies to value bytes. */
  datatype ValueCodec = Utf8 | Latin1

  const U32_LIMIT: nat := 0x1_0000_0000

  predicate FitsU32(n: int)
  {
    0 <= n < U32_LIMIT
  }

  predicate IsLatin1(s: string)
  {
    forall i :: 0 <= i < |s| ==> s[i] as int < 256
  }

  predicate IsAscii(s: string)
  {
    forall i :: 0 <= i < |s| ==> s[i] as int < 128
  }

  /** `bytes(s, 'latin-1')`: one byte per character. */
  function Latin1Bytes(s: string): (bs: seq<Byte>)
    requires IsLatin1(s)
    ensures |bs| == |s|
    ensures forall i :: 0 <= i < |s| ==> bs[i] == s[i] as int
  {
    if s == [] then [] else [s[0] as int] + Latin1Bytes(s[1..])
  }

  /** `n.to_bytes(4, 'little', signed=False)`. */
  function U32(n: int): (bs: seq<Byte>)
    requires FitsU32(n)
    ensures |bs| == 4 && LeUint(bs) == n
  {
    LeRoundTrip(n, 4);
    LeBytes(n, 4)
  }

  // ---------------------------------------------------------------------
  // Encoding.
  // ---------------------------------------------------------------------

  /** What `to_bytes` returns or raises, checking the fields in the order the source converts them. */
  function Encode(t: PyTree): Result<seq<Byte>, CodecError>
    decreases t, 1
  {
    if !FitsU32(t.nodeType) || !FitsU32(t.ruleId) || !FitsU32(|t.subnodes|) || !FitsU32(|t.val|) then
      Err(Overflow)
    else if !IsLatin1(t.val) then Err(NotLatin1)
    else
      match EncodeAll(t.subnodes)
      case Err(e) => Err(e)
      case Ok(kids) => Ok(Header(t) + Latin1Bytes(t.val) + kids)
  }

  /** The four 32-bit header fields: node type, rule id, subnode count, value length. */
  function Header(t: PyTree): (h: seq<Byte>)
    requires FitsU32(t.nodeType) && FitsU32(t.ruleId) && FitsU32(|t.subnodes|) && FitsU32(|t.val|)
    ensures |h| == 16
  {
    U32(t.nodeType) + U32(t.ruleId) + U32(|t.subnodes|) + U32(|t.val|)
  }

  /** The subnodes' encodings concatenated; the first failing subnode decides the error. */
  function EncodeAll(ts: seq<PyTree>): Result<seq<Byte>, CodecError>
    decreases ts, 0
  {
    if ts == [] then Ok([])
    else
      match Encode(ts[0])
      case Err(e) => Err(e)
      case Ok(b) =>
        match EncodeAll(ts[1..])
        case Err(e) => Err(e)
        case Ok(bs) => Ok(b + bs)
  }

  lemma {:induction false} EncodeAllAppend(a: seq<PyTree>, b: seq<PyTree>)
    ensures EncodeAll(a + b) ==
      match EncodeAll(a)
      case Err(e) => Err(e)
      case Ok(x) =>
        match EncodeAll(b)
        case Err(e) => Err(e)
        case Ok(y) => Ok(x + y)
  {
    if a == [] {
      assert a + b == b;
      if EncodeAll(b).Ok? {
        assert [] + EncodeAll(b).value == EncodeAll(b).value;
      }
    } else {
      assert (a + b)[0] == a[0] && (a + b)[1..] == a[1..] + b;
      EncodeAllAppend(a[1..], b);
      if EncodeAll(a).Ok? && EncodeAll(b).Ok? {
        var x0 := Encode(a[0]).value;
        var x1 := EncodeAll(a[1..]).value;
        assert x0 + (x1 + EncodeAll(b).value) == (x0 + x1) + EncodeAll(b).value;
      }
    }
  }

  /** One more subnode appended to the encoded prefix of `ts`. */
  lemma EncodeAllSnoc(ts: seq<PyTree>, i: nat, kids: seq<Byte>)
    requires i < |ts| && EncodeAll(ts[..i]) == Ok(kids)
    ensures Encode(ts[i]).Ok? ==> EncodeAll(ts[..i + 1]) == Ok(kids + Encode(ts[i]).value)
    ensures Encode(ts[i]).Err? ==> EncodeAll(ts[..i + 1]) == Err(Encode(ts[i]).error)
  {
    EncodeAllAppend(ts[..i], [ts[i]]);
    assert ts[..i + 1] == ts[..i] + [ts[i]];
    if Encode(ts[i]).Ok? {
      assert Encode(ts[i]).value + [] == Encode(ts[i]).value;
    }
  }

  /** A failing prefix makes the whole encoding fail with the same error. */
  lemma EncodeAllStop(ts: seq<PyTree>, i: nat)
    requires i <= |ts| && EncodeAll(ts[..i]).Err?
    ensures EncodeAll(ts) == EncodeAll(ts[..i])
  {
    EncodeAllAppend(ts[..i], ts[i..]);
    assert ts[..i] + ts[i..] == ts;
  }

  /** `to_bytes`, building `ret` field by field and then subnode by subnode. */
  method ToBytes(t: PyTree) returns (r: Result<seq<Byte>, CodecError>)
    ensures r == Encode(t)
    decreases t
  {
    if !FitsU32(t.nodeType) || !FitsU32(t.ruleId) || !FitsU32(|t.subnodes|) || !FitsU32(|t.val|) {
      return Err(Overflow);
    }
    var ret := U32(t.nodeType);
    ret := ret + U32(t.ruleId);
    ret := ret + U32(|t.subnodes|);
    ret := ret + U32(|t.val|);
    if !IsLatin1(t.val) {
      return Err(NotLatin1);
    }
    assert ret == Header(t);
    ret := ret + Latin1Bytes(t.val);
    ghost var head, kids := ret, [];
    var i := 0;
    assert t.subnodes[..0] == [] && ret == head + kids;
    while i < |t.subnodes|
      invariant 0 <= i <= |t.subnodes|
      invariant ret == head + kids
      invariant EncodeAll(t.subnodes[..i]) == Ok(kids)
    {
      var sub := ToBytes(t.subnodes[i]);
      EncodeAllSnoc(t.subnodes, i, kids);
      if sub.Err? {
        EncodeAllStop(t.subnodes, i + 1);
        return Err(sub.error);
      }
      Concat3(head, kids, sub.value);
      ret := ret + sub.value;
      kids := kids + sub.value;
      i := i + 1;
    }
    assert t.subnodes[..i] == t.subnodes;
    r := Ok(ret);
  }

  // ---------------------------------------------------------------------
  // Decoding.
  // ---------------------------------------------------------------------

  predicate Cont(b: Byte)
  {
    0x80 <= b <= 0xBF
  }

  /** The first character of well-formed UTF-8 and its length in bytes (Table 3-7 of the Unicode Standard). */
  function Utf8Head(bs: seq<Byte>): (r: Option<(char, nat)>)
    requires bs != []
    ensures r.Some? ==> 1 <= r.value.1 <= |bs|
  {
    var b0: int := bs[0];
    if b0 < 0x80 then Some((b0 as char, 1))
    else if 0xC2 <= b0 <= 0xDF then
      if |bs| >= 2 && Cont(bs[1]) then Some((((b0 - 0xC0) * 64 + (bs[1] as int - 0x80)) as char, 2))
      else None
    else if 0xE0 <= b0 <= 0xEF then
      var lo := if b0 == 0xE0 then 0xA0 else 0x80;
      var hi := if b0 == 0xED then 0x9F else 0xBF;
      if |bs| >= 3 && lo <= bs[1] <= hi && Cont(bs[2]) then
        Some((((b0 - 0xE0) * 4096 + (bs[1] as int - 0x80) * 64 + (bs[2] as int - 0x80)) as char, 3))
      else None
    else if 0xF0 <= b0 <= 0xF4 then
      var lo := if b0 == 0xF0 then 0x90 else 0x80;
      var hi := if b0 == 0xF4 then 0x8F else 0xBF;
      if |bs| >= 4 && lo <= bs[1] <= hi && Cont(bs[2]) && Cont(bs[3]) then
        Some((((b0 - 0xF0) * 262144 + (bs[1] as int - 0x80) * 4096 + (bs[2] as int - 0x80) * 64
          + (bs[3] as int - 0x80)) as char, 4))
      else None
    else None
  }

  /** `bs.decode('utf-8')`, strict: `None` is a `UnicodeDecodeError`. */
  function Utf8Decode(bs: seq<Byte>): Option<string>
    decreases |bs|
  {
    if bs == [] then Some([])
    else
      match Utf8Head(bs)
      case None => None
      case Some((c, n)) =>
        match Utf8Decode(bs[n..])
        case None => None
        case Some(rest) => Some([c] + rest)
  }

  function DecodeValue(bs: seq<Byte>, codec: ValueCodec): Option<string>
  {
    match codec
    case Utf8 => Utf8Decode(bs)
    case Latin1 => Some(seq(|bs|, i requires 0 <= i < |bs| => bs[i] as char))
  }

  /**
   * What `from_bytes` returns — the node and the number of bytes it claims —
   * when value bytes are decoded with `codec` (the source uses `Utf8`). Short
   * input reads as zeros, and `consumed` counts the declared value length
   * even when fewer bytes are present.
   */
  function Decode(data: seq<Byte>, codec: ValueCodec): Result<(PyTree, nat), CodecError>
    decreases |data|, 1
  {
    var nodeType := LeUint(Slice(data, 0, 4));
    var ruleId := LeUint(Slice(data, 4, 8));
    var count := LeUint(Slice(data, 8, 12));
    var valLen := LeUint(Slice(data, 12, 16));
    var val := if valLen != 0 then DecodeValue(Slice(data, 16, 16 + valLen), codec) else Some([]);
    if val.None? then Err(BadUtf8)
    else
      assert count > 0 ==> |data| > 8 by {
        if |data| <= 8 {
          assert Slice(data, 8, 12) == [];
        }
      }
      match DecodeKids(data, 16 + valLen, count, codec)
      case Err(e) => Err(e)
      case Ok((kids, consumed)) => Ok((PyTree(nodeType, ruleId, val.value, kids), consumed))
  }

  /** The `for _ in range(subnode_count)` loop of `from_bytes`, from offset `consumed` on. */
  function DecodeKids(data: seq<Byte>, consumed: nat, n: nat, codec: ValueCodec): Result<(seq<PyTree>, nat), CodecError>
    requires consumed >= 1 && (n > 0 ==> |data| > 0)
    decreases |data|, 0, n
  {
    if n == 0 then Ok(([], consumed))
    else
      match Decode(Drop(data, consumed), codec)
      case Err(e) => Err(e)
      case Ok((kid, used)) =>
        match DecodeKids(data, consumed + used, n - 1, codec)
        case Err(e) => Err(e)
        case Ok((kids, c)) => Ok(([kid] + kids, c))
  }

  /** `kids` decoded so far, prepended to the outcome of the rest of the loop. */
  function Prepend(kids: seq<PyTree>, r: Result<(seq<PyTree>, nat), CodecError>): Result<(seq<PyTree>, nat), CodecError>
  {
    match r
    case Err(e) => Err(e)
    case Ok((more, c)) => Ok((kids + more, c))
  }

  lemma PrependNil(r: Result<(seq<PyTree>, nat), CodecError>)
    ensures Prepend([], r) == r
  {
    if r.Ok? {
      assert [] + r.value.0 == r.value.0;
    }
  }

  lemma PrependAssoc(a: seq<PyTree>, b: seq<PyTree>, r: Result<(seq<PyTree>, nat), CodecError>)
    ensures Prepend(a, Prepend(b, r)) == Prepend(a + b, r)
  {
    if r.Ok? {
      assert a + (b + r.value.0) == (a + b) + r.value.0;
    }
  }

  /** One turn of the subnode loop, when the subnode decodes: `kid` joins the subnodes read so far. */
  lemma ReadStep(data: seq<Byte>, start: nat, count: nat, codec: ValueCodec, kids: seq<PyTree>,
                 consumed: nat, n: nat, kid: PyTree, used: nat)
    requires consumed >= 1 && n > 0 && |data| > 0 && start >= 1 && (count > 0 ==> |data| > 0)
    requires DecodeKids(data, start, count, codec) == Prepend(kids, DecodeKids(data, consumed, n, codec))
    requires Decode(Drop(data, consumed), codec) == Ok((kid, used))
    ensures DecodeKids(data, start, count, codec) == Prepend(kids + [kid], DecodeKids(data, consumed + used, n - 1, codec))
  {
    var after := DecodeKids(data, consumed + used, n - 1, codec);
    assert DecodeKids(data, consumed, n, codec) == Prepend([kid], after);
    PrependAssoc(kids, [kid], after);
  }

  /** One turn of the subnode loop, when the subnode fails. */
  lemma DecodeKidsFail(data: seq<Byte>, consumed: nat, n: nat, codec: ValueCodec)
    requires consumed >= 1 && n > 0 && |data| > 0
    requires Decode(Drop(data, consumed), codec).Err?
    ensures DecodeKids(data, consumed, n, codec) == Err(Decode(Drop(data, consumed), codec).error)
  {
  }

  lemma PrependErr(kids: seq<PyTree>, e: CodecError)
    ensures Prepend(kids, Err(e)) == Err(e)
  {
  }

  /** `from_bytes`, reading the header, the value, then one subnode after another. */
  method FromBytes(data: seq<Byte>) returns (r: Result<(PyTree, nat), CodecError>)
    ensures r == Decode(data, Utf8)
    decreases |data|, 1
  {
    var consumed: nat := 0;
    var nodeType := LeUint(Slice(data, consumed, consumed + 4));
    consumed := consumed + 4;
    var ruleId := LeUint(Slice(data, consumed, consumed + 4));
    consumed := consumed + 4;
    var subnodeCount := LeUint(Slice(data, consumed, consumed + 4));
    consumed := consumed + 4;
    var valLen := LeUint(Slice(data, consumed, consumed + 4));
    consumed := consumed + 4;
    var val := "";
    if valLen != 0 {
      var decoded := Utf8Decode(Slice(data, consumed, consumed + valLen));
      if decoded.None? {
        return Err(BadUtf8);
      }
      val := decoded.value;
    }
    consumed := consumed + valLen;
    assert subnodeCount > 0 ==> |data| > 8 by {
      if |data| <= 8 {
        assert Slice(data, 8, 12) == [];
      }
    }
    var kids := ReadSubnodes(data, consumed, subnodeCount);
    match kids
    case Err(e) =>
      return Err(e);
    case Ok((subnodes, total)) =>
      return Ok((PyTree(nodeType, ruleId, val, subnodes), total));
  }

  /** The subnode loop of `from_bytes`: each subnode is read from `data[consumed:]`. */
  method ReadSubnodes(data: seq<Byte>, start: nat, count: nat) returns (r: Result<(seq<PyTree>, nat), CodecError>)
    requires start >= 16 && (count > 0 ==> |data| > 0)
    ensures r == DecodeKids(data, start, count, Utf8)
    decreases |data|, 0
  {
    var consumed := start;
    var subnodes: seq<PyTree> := [];
    var i: nat := 0;
    ghost var left := count;
    PrependNil(DecodeKids(data, consumed, count, Utf8));
    while i < count
      invariant i <= count && left == count - i && consumed >= 16
      invariant DecodeKids(data, start, count, Utf8) == Prepend(subnodes, DecodeKids(data, consumed, left, Utf8))
    {
      var sub := FromBytes(Drop(data, consumed));
      if sub.Err? {
        DecodeKidsFail(data, consumed, left, Utf8);
        PrependErr(subnodes, sub.error);
        return Err(sub.error);
      }
      var (subnode, subConsumed) := sub.value;
      ReadStep(data, start, count, Utf8, subnodes, consumed, left, subnode, subConsumed);
      subnodes := subnodes + [subnode];
      consumed := consumed + subConsumed;
      i := i + 1;
      left := left - 1;
    }
    assert subnodes + [] == subnodes;
    return Ok((subnodes, consumed));
  }

  // ---------------------------------------------------------------------
  // Round trips.
  // ---------------------------------------------------------------------

  /** Every value in the tree is read back by `codec`: any Latin-1 text, or ASCII text under `Utf8`. */
  ghost predicate ReadableTree(t: PyTree, codec: ValueCodec)
  {
    (codec == Utf8 ==> IsAscii(t.val)) && forall i :: 0 <= i < |t.subnodes| ==> ReadableTree(t.subnodes[i], codec)
  }

  lemma {:induction false} AllReadableLatin1(t: PyTree)
    ensures ReadableTree(t, Latin1)
    decreases t
  {
    forall i | 0 <= i < |t.subnodes|
      ensures ReadableTree(t.subnodes[i], Latin1)
    {
      AllReadableLatin1(t.subnodes[i]);
    }
  }

  lemma {:induction false} Utf8Ascii(s: string)
    requires IsAscii(s)
    ensures Utf8Decode(Latin1Bytes(s)) == Some(s)
    decreases |s|
  {
    if s != [] {
      var bs := Latin1Bytes(s);
      assert Utf8Head(bs) == Some((s[0], 1));
      assert bs[1..] == Latin1Bytes(s[1..]);
      Utf8Ascii(s[1..]);
      assert [s[0]] + s[1..] == s;
    }
  }

  lemma DecodeValueReadable(s: string, codec: ValueCodec)
    requires IsLatin1(s) && (codec == Utf8 ==> IsAscii(s))
    ensures DecodeValue(Latin1Bytes(s), codec) == Some(s)
  {
    if codec == Utf8 {
      Utf8Ascii(s);
    } else {
      var bs := Latin1Bytes(s);
      assert seq(|bs|, i requires 0 <= i < |bs| => bs[i] as char) == s;
    }
  }

  /** The four header fields sit at offsets 0, 4, 8 and 12 of the encoding. */
  lemma HeaderFields(t: PyTree, tail: seq<Byte>)
    requires FitsU32(t.nodeType) && FitsU32(t.ruleId) && FitsU32(|t.subnodes|) && FitsU32(|t.val|)
    ensures var data := Header(t) + tail;
      LeUint(Slice(data, 0, 4)) == t.nodeType && LeUint(Slice(data, 4, 8)) == t.ruleId &&
      LeUint(Slice(data, 8, 12)) == |t.subnodes| && LeUint(Slice(data, 12, 16)) == |t.val| &&
      data[16..] == tail
  {
    var data := Header(t) + tail;
    SliceIs(data, 0, 4);
    SliceIs(data, 4, 8);
    SliceIs(data, 8, 12);
    SliceIs(data, 12, 16);
    assert data[0..4] == U32(t.nodeType);
    assert data[4..8] == U32(t.ruleId);
    assert data[8..12] == U32(|t.subnodes|);
    assert data[12..16] == U32(|t.val|);
  }

  /**
   * `Decode` assembled from its parts: a header announcing `t`'s fields, the
   * value, and the subnodes' encodings laid end to end after it.
   */
  lemma DecodeParts(data: seq<Byte>, codec: ValueCodec, t: PyTree, es: seq<seq<Byte>>, rest: seq<Byte>, n: nat)
    requires LeUint(Slice(data, 0, 4)) == t.nodeType && LeUint(Slice(data, 4, 8)) == t.ruleId
    requires LeUint(Slice(data, 8, 12)) == |t.subnodes| && LeUint(Slice(data, 12, 16)) == |t.val|
    requires t.val != [] ==> DecodeValue(Slice(data, 16, 16 + |t.val|), codec) == Some(t.val)
    requires |es| == |t.subnodes| && ReadsBack(t.subnodes, es, rest, codec)
    requires 16 + |t.val| <= |data| && Drop(data, 16 + |t.val|) == Flatten(es) + rest
    requires n == 16 + |t.val| + |Flatten(es)|
    ensures Decode(data, codec) == Ok((t, n))
  {
    KidsRoundTrip(t.subnodes, es, data, 16 + |t.val|, rest, codec);
    DecodeFields(data, codec, t, n);
  }

  /** `Decode` of a header announcing `t`'s fields, its value, and subnodes that read back. */
  lemma DecodeFields(data: seq<Byte>, codec: ValueCodec, t: PyTree, n: nat)
    requires LeUint(Slice(data, 0, 4)) == t.nodeType && LeUint(Slice(data, 4, 8)) == t.ruleId
    requires LeUint(Slice(data, 8, 12)) == |t.subnodes| && LeUint(Slice(data, 12, 16)) == |t.val|
    requires t.val != [] ==> DecodeValue(Slice(data, 16, 16 + |t.val|), codec) == Some(t.val)
    requires 16 <= |data| && DecodeKids(data, 16 + |t.val|, |t.subnodes|, codec) == Ok((t.subnodes, n))
    ensures Decode(data, codec) == Ok((t, n))
  {
  }

  /** The subnodes' encodings, one per subnode; `EncodeAll` is their concatenation. */
  function Encodings(ts: seq<PyTree>): (es: seq<seq<Byte>>)
    requires EncodeAll(ts).Ok?
    ensures |es| == |ts| && Flatten(es) == EncodeAll(ts).value
    decreases ts
  {
    if ts == [] then [] else [Encode(ts[0]).value] + Encodings(ts[1..])
  }

  lemma {:induction false} EncodingsAt(ts: seq<PyTree>, i: nat)
    requires EncodeAll(ts).Ok? && i < |ts|
    ensures Encode(ts[i]).Ok? && Encodings(ts)[i] == Encode(ts[i]).value
    decreases ts
  {
    if i > 0 {
      EncodingsAt(ts[1..], i - 1);
    }
  }

  /**
   * Decoding the encoding of `t`, followed by anything, gives `t` back with
   * the encoding's length as the consumed count — provided every value is
   * readable by the decoder's codec.
   */
  lemma {:induction false} RoundTrip(t: PyTree, rest: seq<Byte>, codec: ValueCodec)
    requires Encode(t).Ok?
    requires ReadableTree(t, codec)
    ensures Decode(Encode(t).value + rest, codec) == Ok((t, |Encode(t).value|))
    decreases t, 1
  {
    EncodeSplit(t);
    KidsReadBack(t.subnodes, rest, codec);
    DecodeEncoded(t, rest, codec);
  }

  /** `RoundTrip` once the subnodes are known to read back. */
  lemma DecodeEncoded(t: PyTree, rest: seq<Byte>, codec: ValueCodec)
    requires Encode(t).Ok? && EncodeAll(t.subnodes).Ok?
    requires codec == Utf8 ==> IsAscii(t.val)
    requires ReadsBack(t.subnodes, Encodings(t.subnodes), rest, codec)
    ensures Decode(Encode(t).value + rest, codec) == Ok((t, |Encode(t).value|))
  {
    EncodeLayout(t, rest);
    DecodeValueReadable(t.val, codec);
    DecodeParts(Encode(t).value + rest, codec, t, Encodings(t.subnodes), rest, |Encode(t).value|);
  }

  /** Where `to_bytes` puts the header fields, the value and the subnodes. */
  lemma EncodeLayout(t: PyTree, rest: seq<Byte>)
    requires Encode(t).Ok?
    ensures IsLatin1(t.val)
    ensures EncodeAll(t.subnodes).Ok?
    ensures |Encode(t).value| == 16 + |t.val| + |Flatten(Encodings(t.subnodes))|
    ensures var data := Encode(t).value + rest;
      LeUint(Slice(data, 0, 4)) == t.nodeType && LeUint(Slice(data, 4, 8)) == t.ruleId &&
      LeUint(Slice(data, 8, 12)) == |t.subnodes| && LeUint(Slice(data, 12, 16)) == |t.val| &&
      Slice(data, 16, 16 + |t.val|) == Latin1Bytes(t.val) &&
      16 + |t.val| <= |data| && Drop(data, 16 + |t.val|) == Flatten(Encodings(t.subnodes)) + rest
  {
    EncodeSplit(t);
    var vb := Latin1Bytes(t.val);
    var kb := Flatten(Encodings(t.subnodes));
    var tail := vb + (kb + rest);
    assert Encode(t).value + rest == Header(t) + tail by {
      Assoc(Header(t), vb, kb, rest);
    }
    HeaderFields(t, tail);
    SplitAt(Header(t) + tail, 16, vb, kb + rest);
    SliceIs(Header(t) + tail, 16, 16 + |vb|);
    DropIs(Header(t) + tail, 16 + |vb|);
  }

  lemma EncodeSplit(t: PyTree)
    requires Encode(t).Ok?
    ensures FitsU32(t.nodeType) && FitsU32(t.ruleId) && FitsU32(|t.subnodes|) && FitsU32(|t.val|)
    ensures IsLatin1(t.val) && EncodeAll(t.subnodes).Ok?
    ensures Encode(t).value == Header(t) + Latin1Bytes(t.val) + EncodeAll(t.subnodes).value
  {
  }

  lemma Assoc(h: seq<Byte>, v: seq<Byte>, k: seq<Byte>, r: seq<Byte>)
    ensures h + v + k + r == h + (v + (k + r))
  {
  }

  /** Each encoding in `es`, followed by the ones after it and `rest`, decodes to the matching tree. */
  ghost predicate ReadsBack(ts: seq<PyTree>, es: seq<seq<Byte>>, rest: seq<Byte>, codec: ValueCodec)
    requires |es| == |ts|
    decreases |ts|
  {
    ts != [] ==>
      Decode(es[0] + (Flatten(es[1..]) + rest), codec) == Ok((ts[0], |es[0]|)) &&
      ReadsBack(ts[1..], es[1..], rest, codec)
  }

  lemma {:induction false} KidsReadBack(ts: seq<PyTree>, rest: seq<Byte>, codec: ValueCodec)
    requires EncodeAll(ts).Ok?
    requires forall i :: 0 <= i < |ts| ==> ReadableTree(ts[i], codec)
    ensures ReadsBack(ts, Encodings(ts), rest, codec)
    decreases ts, 0
  {
    if ts != [] {
      var es := Encodings(ts);
      assert es[0] == Encode(ts[0]).value && es[1..] == Encodings(ts[1..]);
      RoundTrip(ts[0], Flatten(es[1..]) + rest, codec);
      KidsReadBack(ts[1..], rest, codec);
    }
  }

  /** A suffix of `data` that spells `x + y` splits into `x` and, after it, `y`. */
  lemma SplitAt(data: seq<Byte>, start: nat, x: seq<Byte>, y: seq<Byte>)
    requires start <= |data| && data[start..] == x + y
    ensures data[start..start + |x|] == x && data[start + |x|..] == y
  {
    forall i | 0 <= i < |x|
      ensures data[start + i] == x[i]
    {
      assert data[start..][i] == (x + y)[i];
    }
    forall i | 0 <= i < |y|
      ensures data[start + |x| + i] == y[i]
    {
      assert data[start..][|x| + i] == (x + y)[|x| + i];
    }
  }

  /** The subnode loop reads back a run of encodings laid end to end, each of which decodes on its own. */
  lemma {:induction false} KidsRoundTrip(ts: seq<PyTree>, es: seq<seq<Byte>>, data: seq<Byte>, start: nat,
                                         rest: seq<Byte>, codec: ValueCodec)
    requires |es| == |ts| && ReadsBack(ts, es, rest, codec)
    requires 1 <= start <= |data| && Drop(data, start) == Flatten(es) + rest
    ensures DecodeKids(data, start, |ts|, codec) == Ok((ts, start + |Flatten(es)|))
    decreases |ts|
  {
    if ts == [] {
      assert |Flatten(es)| == 0;
      KidsNil(data, start, codec);
    } else {
      var tail := Flatten(es[1..]);
      assert Flatten(es) == es[0] + tail;
      DropHead(data, start, es[0], tail, rest);
      KidsRoundTrip(ts[1..], es[1..], data, start + |es[0]|, rest, codec);
      KidsCons(data, start, ts, codec, |es[0]|, start + |es[0]| + |tail|);
    }
  }

  lemma KidsNil(data: seq<Byte>, start: nat, codec: ValueCodec)
    requires start >= 1
    ensures DecodeKids(data, start, 0, codec) == Ok(([], start))
  {
  }

  lemma DropHead(data: seq<Byte>, start: nat, e: seq<Byte>, tail: seq<Byte>, rest: seq<Byte>)
    requires start <= |data| && Drop(data, start) == e + tail + rest
    ensures Drop(data, start) == e + (tail + rest)
    ensures start + |e| <= |data| && Drop(data, start + |e|) == tail + rest
  {
    assert e + tail + rest == e + (tail + rest);
    DropIs(data, start);
    SplitAt(data, start, e, tail + rest);
    DropIs(data, start + |e|);
  }

  lemma KidsCons(data: seq<Byte>, start: nat, ts: seq<PyTree>, codec: ValueCodec, used: nat, c: nat)
    requires start >= 1 && |data| > 0 && ts != []
    requires Decode(Drop(data, start), codec) == Ok((ts[0], used))
    requires DecodeKids(data, start + used, |ts[1..]|, codec) == Ok((ts[1..], c))
    ensures DecodeKids(data, start, |ts|, codec) == Ok((ts, c))
  {
    assert [ts[0]] + ts[1..] == ts;
  }

  /** The source's own pairing: `from_bytes(to_bytes(t))` returns `t` whenever every value is ASCII. */
  lemma AsciiRoundTrip(t: PyTree)
    requires Encode(t).Ok? && ReadableTree(t, Utf8)
    ensures Decode(Encode(t).value, Utf8) == Ok((t, |Encode(t).value|))
  {
    RoundTrip(t, [], Utf8);
    assert Encode(t).value + [] == Encode(t).value;
  }

  /** A Latin-1 decoder reads back every tree `to_bytes` accepts. */
  lemma Latin1RoundTrip(t: PyTree)
    requires Encode(t).Ok?
    ensures Decode(Encode(t).value, Latin1) == Ok((t, |Encode(t).value|))
  {
    AllReadableLatin1(t);
    RoundTrip(t, [], Latin1);
    assert Encode(t).value + [] == Encode(t).value;
  }

  /** A single non-ASCII Latin-1 character: `to_bytes` writes byte 0xE9, which strict UTF-8 rejects. */
  lemma NonAsciiValueLost()
    ensures Encode(PyTree(1, 0, "\U{E9}", [])).Ok?
    ensures Decode(Encode(PyTree(1, 0, "\U{E9}", [])).value, Utf8) == Err(BadUtf8)
  {
    var t := PyTree(1, 0, "\U{E9}", []);
    assert EncodeAll([]) == Ok([]);
    var data := Encode(t).value;
    HeaderFields(t, [0xE9]);
    assert data == Header(t) + [0xE9];
    SliceIs(data, 16, 17);
    assert Slice(data, 16, 17) == [0xE9];
    assert Utf8Head([0xE9]).None?;
  }

  // ---------------------------------------------------------------------
  // Text forms.
  // ---------------------------------------------------------------------

  /** `str(node)`: a leaf shows its value, an inner node the text of its subnodes, its own value ignored. */
  function Str(t: PyTree): string
    decreases t, 1
  {
    if |t.subnodes| == 0 then t.val else StrAll(t.subnodes)
  }

  function StrAll(ts: seq<PyTree>): string
    decreases ts, 0
  {
    if ts == [] then [] else Str(ts[0]) + StrAll(ts[1..])
  }

  /** Joining two runs of subnodes joins their texts. */
  lemma {:induction false} StrAllAppend(a: seq<PyTree>, b: seq<PyTree>)
    ensures StrAll(a + b) == StrAll(a) + StrAll(b)
    decreases |a|
  {
    if a != [] {
      StrAllAppend(a[1..], b);
      assert (a + b)[0] == a[0] && (a + b)[1..] == a[1..] + b;
    } else {
      assert a + b == b;
    }
  }

  /** `TreeNode.__str__`: a leaf's value, otherwise the subnodes' texts appended one by one. */
  method ToStr(t: PyTree) returns (ret: string)
    ensures ret == Str(t)
    ensures |t.subnodes| > 0 ==> ret == StrAll(t.subnodes)
  {
    ret := "";
    if |t.subnodes| == 0 {
      return t.val;
    }
    for i := 0 to |t.subnodes|
      invariant ret == StrAll(t.subnodes[..i])
    {
      StrAllAppend(t.subnodes[..i], [t.subnodes[i]]);
      assert t.subnodes[..i + 1] == t.subnodes[..i] + [t.subnodes[i]];
      assert StrAll([t.subnodes[i]]) == Str(t.subnodes[i]) + StrAll([]);
      ret := ret + Str(t.subnodes[i]);
    }
    assert t.subnodes[..|t.subnodes|] == t.subnodes;
  }

  /** One upper-case hexadecimal digit, as `%X` writes it. */
  function HexDigit(d: nat): (c: char)
    requires d < 16
    ensures ('0' <= c <= '9') || ('A' <= c <= 'F')
  {
    if d < 10 then ('0' as int + d) as char else ('A' as int + d - 10) as char
  }

  /** The digit a hexadecimal character stands for; lower-case digits are not written by `%X`. */
  function HexValue(c: char): (r: Option<nat>)
    ensures r.Some? ==> r.value < 16 && HexDigit(r.value) == c
  {
    if '0' <= c <= '9' then Some(c as int - '0' as int)
    else if 'A' <= c <= 'F' then Some(c as int - 'A' as int + 10)
    else None
  }

  /** `bytes_to_c_str`: every byte as a `\xHH` escape with two upper-case hex digits. */
  function CStr(data: seq<Byte>): (r: string)
    ensures |r| == 4 * |data|
  {
    if data == [] then []
    else ['\\', 'x', HexDigit(data[0] / 16), HexDigit(data[0] % 16)] + CStr(data[1..])
  }

  /** Reads a C string literal made of `\xHH` escapes back into bytes. */
  function ParseCStr(s: string): Option<seq<Byte>>
    decreases |s|
  {
    if s == [] then Some([])
    else if |s| < 4 || s[0] != '\\' || s[1] != 'x' then None
    else
      match (HexValue(s[2]), HexValue(s[3]), ParseCStr(s[4..]))
      case (Some(hi), Some(lo), Some(rest)) => Some([hi * 16 + lo] + rest)
      case _ => None
  }

  lemma HexRoundTrip(d: nat)
    requires d < 16
    ensures HexValue(HexDigit(d)) == Some(d)
  {
  }

  /** Parsing one `\xHH` escape and then the rest of the literal. */
  lemma ParseEscape(hi: nat, lo: nat, rest: string)
    requires hi < 16 && lo < 16
    ensures ParseCStr(['\\', 'x', HexDigit(hi), HexDigit(lo)] + rest) ==
      match ParseCStr(rest)
      case Some(bs) => Some([hi * 16 + lo] + bs)
      case None => None
  {
    var s := ['\\', 'x', HexDigit(hi), HexDigit(lo)] + rest;
    assert s[4..] == rest;
    HexRoundTrip(hi);
    HexRoundTrip(lo);
  }

  /** The escaped literal determines the bytes: parsing it gives `data` back. */
  lemma {:induction false} CStrRoundTrip(data: seq<Byte>)
    ensures ParseCStr(CStr(data)) == Some(data)
  {
    if data != [] {
      var hi, lo := data[0] / 16, data[0] % 16;
      CStrRoundTrip(data[1..]);
      ParseEscape(hi, lo, CStr(data[1..]));
      assert [data[0]] + data[1..] == data;
    }
  }
}
