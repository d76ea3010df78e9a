/**
 The batch V2 codec: L2 block headers and signed legacy transactions, one printer and two parsers.
 Lengths and offsets are 64-bit in the program, so every sum of lengths is reduced by `Wrap64`.
 */
module BatchV2 {
  import opened Rlp
  import opened Wrappers

  // ----- transactions -----

  /** A legacy transaction. `to` is empty for a contract creation. */
  datatype Tx = Tx(nonce: nat, gasPrice: nat, gas: nat, to: Option<Bytes>, value: nat, data: Bytes, v: nat, r: nat,
    s: nat)

  /** A transaction of a batch, still a transaction or already encoded. */
  datatype L2Tx = Plain(tx: Tx, percentage: Byte) | Encoded(data: Bytes, percentage: Byte)

  /** DeltaTimestamp, IndexL1InfoTree and the transactions. The block number is not encoded. */
  datatype L2Block = L2Block(number: nat, delta: nat, index: nat, txs: seq<L2Tx>)

  /** The chain id a legacy V stands for; below 35 the subtraction wraps. */
  function ChainId(v: nat): nat {
    if v == 27 || v == 28 then 0 else if v < 35 then Wrap64(v - 35) / 2 else (v - 35) / 2
  }

  predicate IsPreEIP155(tx: Tx) {
    Wrap64(ChainId(tx.v)) == 0 && (Wrap64(tx.v) == 27 || Wrap64(tx.v) == 28)
  }

  function Fields(tx: Tx): seq<Bytes> {
    [BytesOf(tx.nonce), BytesOf(tx.gasPrice), BytesOf(tx.gas), if tx.to.Some? then tx.to.value else [],
     BytesOf(tx.value), tx.data]
    + if IsPreEIP155(tx) then [] else [BytesOf(ChainId(tx.v)), [], []]
  }

  const UINT256 := Pow256(32)

  /** A signed legacy transaction, before or after EIP-155, whose encoding fits a slice. */
  ghost predicate Signed(tx: Tx) {
    && tx.nonce < UINT64 && tx.gas < UINT64
    && (tx.to.Some? ==> |tx.to.value| == 20)
    && (tx.v == 27 || tx.v == 28 || tx.v >= 35)
    && tx.r < UINT256 && tx.s < UINT256
    && Sized(Fields(tx)) && |EncodeItems(Fields(tx))| < 0x8000_0000_0000_0000
  }

  /** prepareRLPTxData: the fields, then R, S and V, V being 27 or 28. */
  function Prepare(tx: Tx): Bytes
    requires Signed(tx)
  {
    EncodeList(Fields(tx)) + Fixed(tx.r, 32) + Fixed(tx.s, 32) + [27 + (1 - tx.v % 2)]
  }

  /** common.BytesToAddress: the last twenty bytes, padded on the left. */
  function Address(bs: Bytes): (a: Bytes)
    ensures |a| == 20
  {
    if |bs| >= 20 then bs[|bs| - 20..] else seq(20 - |bs|, _ => 0) + bs
  }

  function FieldsToTx(fields: seq<Bytes>, v: Bytes, r: Bytes, s: Bytes): Option<Tx> {
    if |fields| < 6 then None
    else
      var txV: int := if |fields| >= 7 then (NatOf(v) - 27) + (NatOf(fields[6]) * 2 + 35) else NatOf(v);
      Some(Tx(
        Wrap64(NatOf(fields[0])), NatOf(fields[1]), Wrap64(NatOf(fields[2])),
        if fields[3] == [] then None else Some(Address(fields[3])),
        NatOf(fields[4]), fields[5], txV, NatOf(r), NatOf(s)))
  }

  lemma {:induction false} EmptyHasNoBytes(n: nat)
    ensures BytesOf(n) == [] <==> n == 0
  {}

  /** V survives the map to 27 or 28 and back, before and after EIP-155. */
  lemma SignatureSurvives(tx: Tx)
    requires tx.v == 27 || tx.v == 28 || tx.v >= 35
    ensures IsPreEIP155(tx) <==> tx.v == 27 || tx.v == 28
    ensures var sent := 27 + (1 - tx.v % 2);
            tx.v == if IsPreEIP155(tx) then sent else (sent - 27) + (ChainId(tx.v) * 2 + 35)
  {}

  /** The fields of a signed transaction, read back with its signature, are the transaction. */
  lemma FieldsRoundTrip(tx: Tx)
    requires Signed(tx)
    ensures FieldsToTx(Fields(tx), [27 + (1 - tx.v % 2)], Fixed(tx.r, 32), Fixed(tx.s, 32)) == Some(tx)
  {
    hide BytesOf, NatOf, Fixed, EncodeItems, Sized, Pow256, ChainId, IsPreEIP155, Fields, Address;
    FieldList(tx);
    var sent: Byte := 27 + (1 - tx.v % 2);
    BytesOfRoundTrip(tx.nonce);
    BytesOfRoundTrip(tx.gasPrice);
    BytesOfRoundTrip(tx.gas);
    BytesOfRoundTrip(tx.value);
    BytesOfRoundTrip(ChainId(tx.v));
    FixedRoundTrip(tx.r, 32);
    FixedRoundTrip(tx.s, 32);
    SignatureSurvives(tx);
    NatOfOne(sent);
    AddressStays(tx);
  }

  /** The printed fields one by one. */
  lemma FieldList(tx: Tx)
    ensures var f := Fields(tx);
            && |f| == (if IsPreEIP155(tx) then 6 else 9)
            && f[0] == BytesOf(tx.nonce) && f[1] == BytesOf(tx.gasPrice) && f[2] == BytesOf(tx.gas)
            && f[3] == (if tx.to.Some? then tx.to.value else []) && f[4] == BytesOf(tx.value) && f[5] == tx.data
            && (|f| == 9 ==> f[6] == BytesOf(ChainId(tx.v)))
  {
    hide BytesOf, ChainId, IsPreEIP155;
  }

  lemma NatOfOne(b: Byte)
    ensures NatOf([b]) == b
  {
    assert [b][..0] == [];
  }

  lemma NatOfNone()
    ensures NatOf([]) == 0
  {}

  lemma AddressStays(tx: Tx)
    requires tx.to.Some? ==> |tx.to.value| == 20
    ensures tx.to.Some? ==> tx.to.value != [] && Address(tx.to.value) == tx.to.value
  {}

  // ----- dynamic-fee transactions -----

  datatype DynamicFeeTx = DynamicFeeTx(chainId: nat, nonce: nat, tip: nat, feeCap: nat, gas: nat, to: Option<Bytes>,
                                       value: nat, data: Bytes, v: nat, r: nat, s: nat)

  /** The fields prepareRLPTxData prints for it: two fees where a legacy transaction has one. */
  function DynamicFields(tx: DynamicFeeTx): seq<Bytes> {
    [BytesOf(tx.nonce), BytesOf(tx.tip), BytesOf(tx.feeCap), BytesOf(tx.gas), if tx.to.Some? then tx.to.value else [],
     BytesOf(tx.value), tx.data, BytesOf(tx.chainId), [], []]
  }

  /**
   They are read without error as a legacy transaction whose fields are shifted by one: the fee cap becomes the
   gas, the gas the receiver, the receiver the value, the value the data and the data the chain id.
   */
  lemma DynamicFeeShifts(tx: DynamicFeeTx, v: Bytes, r: Bytes, s: Bytes)
    requires tx.nonce < UINT64 && |v| == 1 && v[0] == 27 + (1 - tx.v % 2)
    requires Sized(DynamicFields(tx)) && |EncodeItems(DynamicFields(tx))| < UINT64
    ensures DecodeList(EncodeList(DynamicFields(tx))) == Some(DynamicFields(tx))
    ensures var t := FieldsToTx(DynamicFields(tx), v, r, s);
            && t.Some? && t.value.nonce == tx.nonce && t.value.gasPrice == tx.tip && t.value.gas == Wrap64(tx.feeCap)
            && t.value.to == (if tx.gas == 0 then None else Some(Address(BytesOf(tx.gas))))
            && t.value.value == (if tx.to.Some? then NatOf(tx.to.value) else 0)
            && t.value.data == BytesOf(tx.value)
            && t.value.v == 36 - tx.v % 2 + 2 * NatOf(tx.data)
  {
    hide BytesOf, NatOf, EncodeItems, Sized, EncodeList, DecodeList, Address;
    ListRoundTrip(DynamicFields(tx));
    BytesOfRoundTrip(tx.nonce);
    BytesOfRoundTrip(tx.tip);
    BytesOfRoundTrip(tx.feeCap);
    EmptyHasNoBytes(tx.gas);
    NatOfOne(v[0]);
    assert v == [v[0]];
    NatOfNone();
  }

  // ----- DecodeTxRLP -----

  const MAX_LEN := 0x7FFF_FFFF_FFFF_FFFF

  /** The number of length bytes a list header announces, and the length they spell. */
  function LenLen(b: Byte): nat {
    if b > 247 then b - 247 else 0
  }

  function Declared(bs: Bytes, pos: nat): (n: nat)
    requires pos < |bs| && pos + 1 + LenLen(bs[pos]) <= |bs|
    ensures n < 0x1_0000_0000_0000_0000
  {
    Widths();
    NatOfBound(bs[pos + 1..pos + 1 + LenLen(bs[pos])]);
    PowMonotone(LenLen(bs[pos]), 8);
    NatOf(bs[pos + 1..pos + 1 + LenLen(bs[pos])])
  }

  /** decodeRLPListLengthFromOffset: length of the list at pos with its header. */
  function ListLength(bs: Bytes, pos: nat): (r: Option<nat>)
    requires pos < |bs| <= MAX_LEN
    ensures r.Some? ==> r.value < 0x1_0000_0000_0000_0000
  {
    var num := bs[pos];
    if num < 192 then None
    else if num - 192 > 55 then
      if pos + 1 + (num - 247) > |bs| then None
      else Some(Wrap64(Declared(bs, pos) + num - 247 + 1))
    else Some(num - 192 + 1)
  }

  /** Signature and fields, given where the fields end. */
  function TxAt(bs: Bytes, pos: nat, dataStart: nat): Option<Tx>
    requires pos <= dataStart && dataStart + 65 <= |bs|
  {
    var fields := DecodeList(bs[pos..dataStart]);
    if fields.None? then None
    else FieldsToTx(fields.value, bs[dataStart + 64..dataStart + 65], bs[dataStart..dataStart + 32],
                    bs[dataStart + 32..dataStart + 64])
  }

  /** OutOfRange stands for the run-time panic of a slice expression. */
  datatype TxResult = TxOk(next: nat, tx: Tx, percentage: Byte) | TxError | OutOfRange

  function DecodeTxRLP(bs: Bytes, pos: nat): (r: TxResult)
    requires pos < |bs| <= MAX_LEN
    ensures r.TxOk? ==> pos + 66 <= r.next <= |bs|
  {
    var length := ListLength(bs, pos);
    if length.None? then TxError
    else
      var dataStart := Wrap64(pos + length.value);
      var endPos := Wrap64(dataStart + 66);
      if endPos > |bs| then TxError
      else if !(pos <= endPos && pos <= dataStart && dataStart + 66 <= |bs|) then OutOfRange
      else
        var tx := TxAt(bs, pos, dataStart);
        if tx.None? then TxError else TxOk(endPos, tx.value, bs[dataStart + 65])
  }

  /** The end of the transaction at pos if nothing wrapped. */
  function TrueEnd(bs: Bytes, pos: nat): nat
    requires pos < |bs| && pos + 1 + LenLen(bs[pos]) <= |bs| && bs[pos] >= 192
  {
    if bs[pos] > 247 then pos + 1 + LenLen(bs[pos]) + Declared(bs, pos) + 66 else pos + 1 + (bs[pos] - 192) + 66
  }

  /** Exactly when DecodeTxRLP slices out of range: the end wraps to within the data although the length does not. */
  lemma OutOfRangeIff(bs: Bytes, pos: nat)
    requires pos < |bs| <= MAX_LEN
    ensures DecodeTxRLP(bs, pos).OutOfRange? <==>
            && bs[pos] >= 192 && pos + 1 + LenLen(bs[pos]) <= |bs|
            && TrueEnd(bs, pos) - pos - 66 < 0x1_0000_0000_0000_0000
            && 0 <= TrueEnd(bs, pos) - 0x1_0000_0000_0000_0000 <= |bs|
  {}

  /** A list header that declares 2^64 - 10 bytes: 0xFF eight times, then 0xF6. */
  function WrappingHeader(): (bs: Bytes)
    ensures |bs| == 9
  {
    [0xFF] + Fixed(0xFFFF_FFFF_FFFF_FFF6, 8)
  }

  /** Followed by sixty bytes, whatever they are, that header takes DecodeTxRLP out of range. */
  lemma WrappedSlice(tail: Bytes)
    requires |tail| == 60
    ensures DecodeTxRLP(WrappingHeader() + tail, 0) == OutOfRange
  {
    hide DecodeTxRLP, NatOf, Fixed;
    var bs := WrappingHeader() + tail;
    Widths();
    FixedRoundTrip(0xFFFF_FFFF_FFFF_FFF6, 8);
    assert bs[1..9] == Fixed(0xFFFF_FFFF_FFFF_FFF6, 8);
    OutOfRangeIff(bs, 0);
  }

  // ----- one transaction there and back -----

  lemma ListHeaderLength(bs: Bytes, pos: nat, size: nat, rest: Bytes)
    requires pos < |bs| <= MAX_LEN && size < 0x8000_0000_0000_0000
    requires bs[pos..] == Head(0xC0, size) + rest
    ensures ListLength(bs, pos) == Some(|Head(0xC0, size)| + size)
    ensures if size < 56 then bs[pos] == 0xC0 + size
            else bs[pos] > 247 && |Head(0xC0, size)| == 1 + LenLen(bs[pos]) <= |bs| - pos && Declared(bs, pos) == size
  {
    hide BytesOf, NatOf, Pow256;
    var head := Head(0xC0, size);
    Split(bs, pos, head, rest);
    assert bs[pos] == head[0];
    if size >= 56 {
      Widths();
      BytesOfSize(size, 8);
      BytesOfLeading(size);
      BytesOfRoundTrip(size);
      var n := |BytesOf(size)|;
      assert bs[pos + 1..pos + 1 + n] == bs[pos..pos + |head|][1..] == BytesOf(size);
    }
  }

  /** Wherever a prepared transaction stands, DecodeTxRLP reads it back and stops right after it. */
  lemma TxRoundTrip(bs: Bytes, pos: nat, tx: Tx, percentage: Byte, rest: Bytes)
    requires pos <= |bs| <= MAX_LEN && Signed(tx)
    requires bs[pos..] == Prepare(tx) + [percentage] + rest
    ensures pos < |bs| && bs[pos] >= 192
    ensures DecodeTxRLP(bs, pos) == TxOk(pos + |Prepare(tx)| + 1, tx, percentage)
  {
    hide BytesOf, NatOf, Fixed, EncodeItems, Sized, Pow256, Fields, DecodeList, FieldsToTx, ListLength, Head,
      DecodeTxRLP;
    var list := EncodeList(Fields(tx));
    var sent: Byte := 27 + (1 - tx.v % 2);
    var tail := Fixed(tx.r, 32) + Fixed(tx.s, 32) + [sent] + [percentage] + rest;
    assert bs[pos..] == list + tail;
    ListAt(bs, pos, Fields(tx), tail);
    SignatureAt(bs, pos + |list|, Fixed(tx.r, 32), Fixed(tx.s, 32), sent, percentage, rest);
    FieldsRoundTrip(tx);
    DecodeGiven(bs, pos, |list|, tx, percentage);
  }

  lemma ListAt(bs: Bytes, pos: nat, fields: seq<Bytes>, tail: Bytes)
    requires pos <= |bs| <= MAX_LEN && Sized(fields) && |EncodeItems(fields)| < 0x8000_0000_0000_0000
    requires bs[pos..] == EncodeList(fields) + tail
    ensures pos < |bs| && bs[pos] >= 192 && ListLength(bs, pos) == Some(|EncodeList(fields)|)
    ensures bs[pos..pos + |EncodeList(fields)|] == EncodeList(fields) && bs[pos + |EncodeList(fields)|..] == tail
    ensures DecodeList(EncodeList(fields)) == Some(fields)
  {
    hide EncodeItems, Sized, Head, ListLength, DecodeList;
    var payload := EncodeItems(fields);
    var head := Head(0xC0, |payload|);
    assert bs[pos..] == head + (payload + tail);
    Split(bs, pos, EncodeList(fields), tail);
    Split(bs, pos, head, payload + tail);
    assert bs[pos] == head[0];
    ListHeaderLength(bs, pos, |payload|, payload + tail);
    ListRoundTrip(fields);
  }

  lemma DecodeGiven(bs: Bytes, pos: nat, length: nat, tx: Tx, percentage: Byte)
    requires pos < |bs| <= MAX_LEN && ListLength(bs, pos) == Some(length) && pos + length + 66 <= |bs|
    requires TxAt(bs, pos, pos + length) == Some(tx) && bs[pos + length + 65] == percentage
    ensures DecodeTxRLP(bs, pos) == TxOk(pos + length + 66, tx, percentage)
  {
    hide ListLength, TxAt;
  }

  lemma Split(bs: Bytes, pos: nat, a: Bytes, b: Bytes)
    requires pos <= |bs| && bs[pos..] == a + b
    ensures pos + |a| + |b| == |bs| && bs[pos..pos + |a|] == a && bs[pos + |a|..] == b
    ensures forall k: nat {:trigger a[k]} :: k < |a| ==> bs[pos + k] == a[k]
  {}

  lemma SignatureAt(bs: Bytes, d: nat, r: Bytes, s: Bytes, v: Byte, percentage: Byte, rest: Bytes)
    requires d <= |bs| && |r| == 32 && |s| == 32 && bs[d..] == r + s + [v] + [percentage] + rest
    ensures d + 66 <= |bs|
    ensures bs[d..d + 32] == r && bs[d + 32..d + 64] == s && bs[d + 64..d + 65] == [v] && bs[d + 65] == percentage
  {}

  // ----- batches -----

  const CHANGE_L2_BLOCK: Byte := 0x0b

  ghost predicate Encodable(t: L2Tx) {
    t.Plain? ==> Signed(t.tx)
  }

  function EncTx(t: L2Tx): Bytes
    requires Encodable(t)
  {
    (if t.Plain? then Prepare(t.tx) else t.data) + [t.percentage]
  }

  ghost predicate AllEncodable(ts: seq<L2Tx>) {
    forall k: nat {:trigger ts[k]} :: k < |ts| ==> Encodable(ts[k])
  }

  function EncTxs(ts: seq<L2Tx>): Bytes
    requires AllEncodable(ts)
  {
    if ts == [] then [] else
    AllButLast(ts);
    EncTxs(ts[..|ts| - 1]) + EncTx(ts[|ts| - 1])
  }

  lemma AllButLast(ts: seq<L2Tx>)
    requires AllEncodable(ts) && ts != []
    ensures AllEncodable(ts[..|ts| - 1]) && Encodable(ts[|ts| - 1])
  {}

  function EncHeader(b: L2Block): (r: Bytes)
    ensures |r| == 9 && r[0] == CHANGE_L2_BLOCK
  {
    [CHANGE_L2_BLOCK] + Fixed(b.delta, 4) + Fixed(b.index, 4)
  }

  ghost predicate BatchEncodable(bs: seq<L2Block>) {
    forall k: nat {:trigger bs[k]} :: k < |bs| ==> AllEncodable(bs[k].txs)
  }

  function EncBlocks(bs: seq<L2Block>): Bytes
    requires BatchEncodable(bs)
  {
    if bs == [] then [] else
    BlocksButLast(bs);
    EncBlocks(bs[..|bs| - 1]) + EncHeader(bs[|bs| - 1]) + EncTxs(bs[|bs| - 1].txs)
  }

  lemma BlocksButLast(bs: seq<L2Block>)
    requires BatchEncodable(bs) && bs != []
    ensures BatchEncodable(bs[..|bs| - 1]) && AllEncodable(bs[|bs| - 1].txs)
  {}


  /** The builder. */
  class Encoder {
    var batchData: Bytes

    constructor ()
      ensures batchData == []
    {
      batchData := [];
    }

    method AddBlockHeader(b: L2Block)
      modifies this
      ensures batchData == old(batchData) + EncHeader(b)
    {
      batchData := batchData + [CHANGE_L2_BLOCK];
      batchData := batchData + Fixed(b.delta, 4);
      batchData := batchData + Fixed(b.index, 4);
    }

    method AddTransaction(t: L2Tx)
      requires Encodable(t)
      modifies this
      ensures batchData == old(batchData) + EncTx(t)
    {
      if t.Encoded? {
        batchData := batchData + t.data;
      } else {
        batchData := batchData + Prepare(t.tx);
      }
      batchData := batchData + [t.percentage];
    }

    method AddTransactions(ts: seq<L2Tx>)
      requires AllEncodable(ts)
      modifies this
      ensures batchData == old(batchData) + EncTxs(ts)
    {
      for i := 0 to |ts|
        invariant AllEncodable(ts[..i])
        invariant batchData == old(batchData) + EncTxs(ts[..i])
      {
        assert Encodable(ts[i]) && ts[..i + 1][..i] == ts[..i];
        PushEncodable(ts[..i], ts[i]);
        assert ts[..i] + [ts[i]] == ts[..i + 1];
        AddTransaction(ts[i]);
      }
      assert ts[..|ts|] == ts;
    }
  }

  lemma PushEncodable(ts: seq<L2Tx>, t: L2Tx)
    requires AllEncodable(ts) && Encodable(t)
    ensures AllEncodable(ts + [t])
  {}

  lemma PushBlock(bs: seq<L2Block>, b: L2Block)
    requires BatchEncodable(bs) && AllEncodable(b.txs)
    ensures BatchEncodable(bs + [b])
  {}

  /** EncodeBatchV2: refuses only the empty batch. */
  method EncodeBatchV2(blocks: seq<L2Block>) returns (r: Option<Bytes>)
    requires BatchEncodable(blocks)
    ensures r == if blocks == [] then None else Some(EncBlocks(blocks))
  {
    if |blocks| == 0 {
      return None;
    }
    var encoder := new Encoder();
    for i := 0 to |blocks|
      invariant BatchEncodable(blocks[..i])
      invariant encoder.batchData == EncBlocks(blocks[..i])
    {
      assert AllEncodable(blocks[i].txs) && blocks[..i + 1][..i] == blocks[..i];
      PushBlock(blocks[..i], blocks[i]);
      assert blocks[..i] + [blocks[i]] == blocks[..i + 1];
      encoder.AddBlockHeader(blocks[i]);
      encoder.AddTransactions(blocks[i].txs);
    }
    assert blocks[..|blocks|] == blocks;
    return Some(encoder.batchData);
  }

  // ----- DecodeBatchV2 -----

  datatype BatchResult =
    | BatchOk(blocks: seq<L2Block>)
    | StartsWithTx
    | InvalidBatch
    | InvalidTx
    | BatchOutOfRange

  function Closed(done: seq<L2Block>, cur: Option<L2Block>): seq<L2Block> {
    if cur.Some? then done + [cur.value] else done
  }

  /** decodeUint32 at pos. */
  function Uint32At(bs: Bytes, pos: nat): Option<nat>
    requires pos <= |bs|
  {
    if |bs| - pos < 4 then None else Some(NatOf(bs[pos..pos + 4]))
  }

  /** DecodeBatchV2 from pos on, with the blocks finished and the block being read. */
  function DecodeFrom(bs: Bytes, pos: nat, cur: Option<L2Block>, done: seq<L2Block>): BatchResult
    requires pos <= |bs| <= MAX_LEN
    decreases |bs| - pos
  {
    if pos == |bs| then BatchOk(Closed(done, cur))
    else if bs[pos] == CHANGE_L2_BLOCK then
      var delta := Uint32At(bs, pos + 1);
      if delta.None? then InvalidBatch
      else
        var index := Uint32At(bs, pos + 5);
        if index.None? then InvalidBatch
        else DecodeFrom(bs, pos + 9, Some(L2Block(0, delta.value, index.value, [])), Closed(done, cur))
    else
      match DecodeTxRLP(bs, pos)
      case OutOfRange => BatchOutOfRange
      case TxError => if cur.None? then InvalidBatch else InvalidTx
      case TxOk(next, tx, percentage) =>
        if cur.None? then StartsWithTx
        else
          var b := cur.value;
          DecodeFrom(bs, next, Some(b.(txs := b.txs + [Plain(tx, percentage)])), done)
  }

  method DecodeBatchV2(txsData: Bytes) returns (r: BatchResult)
    requires |txsData| <= MAX_LEN
    ensures r == DecodeFrom(txsData, 0, None, [])
  {
    var blocks: seq<L2Block> := [];
    var currentBlock: Option<L2Block> := None;
    var pos := 0;
    while pos < |txsData|
      invariant 0 <= pos <= |txsData|
      invariant DecodeFrom(txsData, pos, currentBlock, blocks) == DecodeFrom(txsData, 0, None, [])
      decreases |txsData| - pos
    {
      if txsData[pos] == CHANGE_L2_BLOCK {
        if currentBlock.Some? {
          blocks := blocks + [currentBlock.value];
        }
        var delta := Uint32At(txsData, pos + 1);
        if delta.None? {
          return InvalidBatch;
        }
        var index := Uint32At(txsData, pos + 5);
        if index.None? {
          return InvalidBatch;
        }
        pos, currentBlock := pos + 9, Some(L2Block(0, delta.value, index.value, []));
      } else {
        var tx := DecodeTxRLP(txsData, pos);
        if tx.OutOfRange? {
          return BatchOutOfRange;
        }
        if currentBlock.None? {
          return if tx.TxOk? then StartsWithTx else InvalidBatch;
        }
        if tx.TxError? {
          return InvalidTx;
        }
        var b := currentBlock.value;
        pos, currentBlock := tx.next, Some(b.(txs := b.txs + [Plain(tx.tx, tx.percentage)]));
      }
    }
    if currentBlock.Some? {
      blocks := blocks + [currentBlock.value];
    }
    return BatchOk(blocks);
  }

  // ----- a batch there and back -----

  /** A batch of signed legacy transactions with 32-bit headers. */
  ghost predicate AllPlain(ts: seq<L2Tx>) {
    forall k: nat {:trigger ts[k]} :: k < |ts| ==> ts[k].Plain? && Signed(ts[k].tx)
  }

  ghost predicate PlainBatch(bs: seq<L2Block>) {
    forall k: nat {:trigger bs[k]} :: k < |bs| ==>
      bs[k].delta < 0x1_0000_0000 && bs[k].index < 0x1_0000_0000 && AllPlain(bs[k].txs)
  }

  function Unnumbered(bs: seq<L2Block>): (r: seq<L2Block>)
    ensures |r| == |bs|
  {
    if bs == [] then [] else Unnumbered(bs[..|bs| - 1]) + [bs[|bs| - 1].(number := 0)]
  }

  /** The bytes of a run of transactions end with those of the last one. */
  lemma LastTx(ts: seq<L2Tx>, rest: Bytes)
    requires AllPlain(ts) && AllEncodable(ts) && ts != []
    ensures var front, t := ts[..|ts| - 1], ts[|ts| - 1];
            && AllPlain(front) && AllEncodable(front) && t.Plain? && Signed(t.tx)
            && EncTxs(ts) + rest == EncTxs(front) + (Prepare(t.tx) + [t.percentage] + rest)
            && |EncTxs(ts)| == |EncTxs(front)| + |Prepare(t.tx)| + 1
  {
    hide Prepare, Signed;
    AllButLast(ts);
    var front, t := ts[..|ts| - 1], ts[|ts| - 1];
    forall k: nat {:trigger front[k]} | k < |front|
      ensures front[k].Plain? && Signed(front[k].tx)
    {
      assert front[k] == ts[k];
    }
    assert EncTxs(front) + (Prepare(t.tx) + [t.percentage]) + rest
      == EncTxs(front) + (Prepare(t.tx) + [t.percentage] + rest);
  }

  /** Reading on after a run of transactions: they join the block being read. */
  lemma {:induction false} TxsRead(bs: Bytes, pos: nat, ts: seq<L2Tx>, rest: Bytes, b: L2Block, done: seq<L2Block>)
    requires pos <= |bs| <= MAX_LEN && AllPlain(ts) && AllEncodable(ts) && bs[pos..] == EncTxs(ts) + rest
    ensures pos + |EncTxs(ts)| <= |bs|
    ensures DecodeFrom(bs, pos, Some(b), done)
            == DecodeFrom(bs, pos + |EncTxs(ts)|, Some(b.(txs := b.txs + ts)), done)
    decreases |ts|
  {
    hide Prepare, Signed, DecodeFrom, DecodeTxRLP, EncTxs, AllPlain, AllEncodable;
    if ts == [] {
      NoTxs(ts);
      assert b.txs + ts == b.txs;
    } else {
      var n := |ts| - 1;
      var front, t := ts[..n], ts[n];
      LastTx(ts, rest);
      var last := Prepare(t.tx) + [t.percentage] + rest;
      Split(bs, pos, EncTxs(front), last);
      TxsRead(bs, pos, front, last, b, done);
      OneMore(bs, pos + |EncTxs(front)|, t, rest, b, front, done);
      assert front + [t] == ts;
    }
  }

  lemma NoTxs(ts: seq<L2Tx>)
    requires ts == []
    ensures AllEncodable(ts) && EncTxs(ts) == []
  {}

  lemma OneMore(bs: Bytes, pos: nat, t: L2Tx, rest: Bytes, b: L2Block, front: seq<L2Tx>, done: seq<L2Block>)
    requires pos <= |bs| <= MAX_LEN && t.Plain? && Signed(t.tx)
    requires bs[pos..] == Prepare(t.tx) + [t.percentage] + rest
    ensures pos + |Prepare(t.tx)| + 1 <= |bs|
    ensures DecodeFrom(bs, pos, Some(b.(txs := b.txs + front)), done)
            == DecodeFrom(bs, pos + |Prepare(t.tx)| + 1, Some(b.(txs := b.txs + (front + [t]))), done)
  {
    hide Prepare, Signed, DecodeFrom, DecodeTxRLP;
    TxRoundTrip(bs, pos, t.tx, t.percentage, rest);
    assert b.txs + front + [t] == b.txs + (front + [t]);
    ReadOneTx(bs, pos, t, b.(txs := b.txs + front), done);
  }

  lemma ReadOneTx(bs: Bytes, pos: nat, t: L2Tx, b: L2Block, done: seq<L2Block>)
    requires pos < |bs| <= MAX_LEN && bs[pos] >= 192 && t.Plain? && Signed(t.tx)
    requires DecodeTxRLP(bs, pos) == TxOk(pos + |Prepare(t.tx)| + 1, t.tx, t.percentage)
    ensures DecodeFrom(bs, pos, Some(b), done)
            == DecodeFrom(bs, pos + |Prepare(t.tx)| + 1, Some(b.(txs := b.txs + [t])), done)
  {
    hide DecodeTxRLP, Prepare, Signed;
  }

  lemma ReadOneHeader(bs: Bytes, pos: nat, b: L2Block, rest: Bytes, cur: Option<L2Block>, done: seq<L2Block>)
    requires pos <= |bs| <= MAX_LEN && bs[pos..] == EncHeader(b) + rest
    requires b.delta < 0x1_0000_0000 && b.index < 0x1_0000_0000
    ensures pos + 9 <= |bs|
    ensures DecodeFrom(bs, pos, cur, done)
            == DecodeFrom(bs, pos + 9, Some(L2Block(0, b.delta, b.index, [])), Closed(done, cur))
  {
    hide DecodeTxRLP, Fixed, NatOf;
    Widths();
    FixedRoundTrip(b.delta, 4);
    FixedRoundTrip(b.index, 4);
    assert bs[pos..] == [CHANGE_L2_BLOCK] + (Fixed(b.delta, 4) + Fixed(b.index, 4) + rest);
    Split(bs, pos, [CHANGE_L2_BLOCK], Fixed(b.delta, 4) + Fixed(b.index, 4) + rest);
    assert [CHANGE_L2_BLOCK][0] == CHANGE_L2_BLOCK;
    assert Fixed(b.delta, 4) + Fixed(b.index, 4) + rest == Fixed(b.delta, 4) + (Fixed(b.index, 4) + rest);
    Split(bs, pos + 1, Fixed(b.delta, 4), Fixed(b.index, 4) + rest);
    Split(bs, pos + 5, Fixed(b.index, 4), rest);
  }

  /** The bytes of a batch end with the header and the transactions of the last block. */
  lemma LastBlock(blocks: seq<L2Block>, rest: Bytes)
    requires PlainBatch(blocks) && BatchEncodable(blocks) && blocks != []
    ensures var front, b := blocks[..|blocks| - 1], blocks[|blocks| - 1];
            && PlainBatch(front) && BatchEncodable(front)
            && b.delta < 0x1_0000_0000 && b.index < 0x1_0000_0000 && AllPlain(b.txs) && AllEncodable(b.txs)
            && EncBlocks(blocks) + rest == EncBlocks(front) + (EncHeader(b) + (EncTxs(b.txs) + rest))
            && |EncBlocks(blocks)| == |EncBlocks(front)| + 9 + |EncTxs(b.txs)|
  {
    hide EncTxs, AllPlain, AllEncodable, EncHeader;
    BlocksButLast(blocks);
    var front, b := blocks[..|blocks| - 1], blocks[|blocks| - 1];
    forall k: nat {:trigger front[k]} | k < |front|
      ensures front[k].delta < 0x1_0000_0000 && front[k].index < 0x1_0000_0000 && AllPlain(front[k].txs)
    {
      assert front[k] == blocks[k];
    }
    assert EncBlocks(front) + EncHeader(b) + EncTxs(b.txs) + rest
        == EncBlocks(front) + (EncHeader(b) + (EncTxs(b.txs) + rest));
  }

  /** Reading on after one block: the block before it is done. */
  lemma BlockRead(bs: Bytes, pos: nat, b: L2Block, rest: Bytes, cur: Option<L2Block>, done: seq<L2Block>)
    requires pos <= |bs| <= MAX_LEN && AllPlain(b.txs) && AllEncodable(b.txs)
    requires b.delta < 0x1_0000_0000 && b.index < 0x1_0000_0000
    requires bs[pos..] == EncHeader(b) + (EncTxs(b.txs) + rest)
    ensures pos + 9 + |EncTxs(b.txs)| <= |bs|
    ensures DecodeFrom(bs, pos, cur, done)
            == DecodeFrom(bs, pos + 9 + |EncTxs(b.txs)|, Some(b.(number := 0)), Closed(done, cur))
  {
    hide DecodeFrom, EncTxs, AllPlain, AllEncodable, Closed, EncHeader;
    ReadOneHeader(bs, pos, b, EncTxs(b.txs) + rest, cur, done);
    Split(bs, pos, EncHeader(b), EncTxs(b.txs) + rest);
    TxsRead(bs, pos + 9, b.txs, rest, L2Block(0, b.delta, b.index, []), Closed(done, cur));
    assert [] + b.txs == b.txs;
  }

  /** The blocks finished and the block being read once a batch has been read up to some block. */
  function DoneBefore(blocks: seq<L2Block>): seq<L2Block> {
    if blocks == [] then [] else Unnumbered(blocks)[..|blocks| - 1]
  }

  function CurrentAt(blocks: seq<L2Block>): Option<L2Block> {
    if blocks == [] then None else Some(Unnumbered(blocks)[|blocks| - 1])
  }

  lemma ClosedIsUnnumbered(blocks: seq<L2Block>)
    ensures Closed(DoneBefore(blocks), CurrentAt(blocks)) == Unnumbered(blocks)
  {}

  lemma NextBlock(blocks: seq<L2Block>)
    requires blocks != []
    ensures DoneBefore(blocks) == Unnumbered(blocks[..|blocks| - 1])
    ensures CurrentAt(blocks) == Some(blocks[|blocks| - 1].(number := 0))
  {}

  lemma {:induction false} BlocksRead(bs: Bytes, pos: nat, blocks: seq<L2Block>, rest: Bytes)
    requires pos <= |bs| <= MAX_LEN && PlainBatch(blocks) && BatchEncodable(blocks)
    requires bs[pos..] == EncBlocks(blocks) + rest
    ensures pos + |EncBlocks(blocks)| <= |bs|
    ensures DecodeFrom(bs, pos, None, [])
            == DecodeFrom(bs, pos + |EncBlocks(blocks)|, CurrentAt(blocks), DoneBefore(blocks))
    decreases |blocks|
  {
    hide DecodeFrom, EncTxs, AllPlain, AllEncodable, PlainBatch, BatchEncodable, Unnumbered, Closed, EncHeader;
    if blocks != [] {
      var front, b := blocks[..|blocks| - 1], blocks[|blocks| - 1];
      LastBlock(blocks, rest);
      var after := EncHeader(b) + (EncTxs(b.txs) + rest);
      Split(bs, pos, EncBlocks(front), after);
      BlocksRead(bs, pos, front, after);
      BlockRead(bs, pos + |EncBlocks(front)|, b, rest, CurrentAt(front), DoneBefore(front));
      ClosedIsUnnumbered(front);
      NextBlock(blocks);
    }
  }

  /** DecodeBatchV2 after EncodeBatchV2 gives the batch back, block numbers aside, and reads every byte. */
  lemma BatchRoundTrip(blocks: seq<L2Block>)
    requires PlainBatch(blocks) && BatchEncodable(blocks) && blocks != [] && |EncBlocks(blocks)| <= MAX_LEN
    ensures DecodeFrom(EncBlocks(blocks), 0, None, []) == BatchOk(Unnumbered(blocks))
  {
    hide EncBlocks;
    var bs := EncBlocks(blocks);
    assert bs[0..] == bs + [];
    BlocksRead(bs, 0, blocks, []);
    ClosedIsUnnumbered(blocks);
  }

  // ----- transactions encoded beforehand -----

  /** t is the transaction u, as it is or encoded beforehand. */
  ghost predicate StandsFor(t: L2Tx, u: L2Tx) {
    u.Plain? && Signed(u.tx) && (t == u || t == Encoded(Prepare(u.tx), u.percentage))
  }

  ghost predicate AllStandFor(ts: seq<L2Tx>, us: seq<L2Tx>) {
    |ts| == |us| && forall k: nat {:trigger ts[k]} {:trigger us[k]} :: k < |ts| ==> StandsFor(ts[k], us[k])
  }

  ghost predicate BlockStandsFor(b: L2Block, c: L2Block) {
    b.delta == c.delta && b.index == c.index && AllStandFor(b.txs, c.txs)
  }

  ghost predicate BatchStandsFor(bs: seq<L2Block>, cs: seq<L2Block>) {
    |bs| == |cs| && forall k: nat {:trigger bs[k]} {:trigger cs[k]} :: k < |bs| ==> BlockStandsFor(bs[k], cs[k])
  }

  lemma {:induction false} SameTxBytes(ts: seq<L2Tx>, us: seq<L2Tx>)
    requires AllStandFor(ts, us)
    ensures AllEncodable(ts) && AllEncodable(us) && EncTxs(ts) == EncTxs(us)
    decreases |ts|
  {
    hide Prepare, Signed;
    if ts != [] {
      var n := |ts| - 1;
      assert StandsFor(ts[n], us[n]);
      SameTxBytes(ts[..n], us[..n]);
    }
  }

  lemma {:induction false} SameBatchBytes(bs: seq<L2Block>, cs: seq<L2Block>)
    requires BatchStandsFor(bs, cs)
    ensures BatchEncodable(bs) && BatchEncodable(cs) && EncBlocks(bs) == EncBlocks(cs)
    decreases |bs|
  {
    hide EncTxs, AllStandFor, AllEncodable;
    if bs != [] {
      var n := |bs| - 1;
      assert BlockStandsFor(bs[n], cs[n]);
      SameTxBytes(bs[n].txs, cs[n].txs);
      SameBatchBytes(bs[..n], cs[..n]);
      assert bs == bs[..n] + [bs[n]] && cs == cs[..n] + [cs[n]];
      PushBlock(bs[..n], bs[n]);
      PushBlock(cs[..n], cs[n]);
    }
  }

  /** A batch with transactions encoded beforehand decodes to the batch of those transactions. */
  lemma EncodedBeforehand(bs: seq<L2Block>, cs: seq<L2Block>)
    requires BatchStandsFor(bs, cs) && PlainBatch(cs) && cs != []
    requires BatchEncodable(cs) && |EncBlocks(cs)| <= MAX_LEN
    ensures BatchEncodable(bs) && EncBlocks(bs) == EncBlocks(cs)
    ensures DecodeFrom(EncBlocks(bs), 0, None, []) == BatchOk(Unnumbered(cs))
  {
    SameBatchBytes(bs, cs);
    BatchRoundTrip(cs);
  }

  // ----- DecodeTxs -----

  datatype Turn = TurnOk(next: nat, tx: Tx, percentage: Byte) | TurnError | TurnCut

  /** One turn of the loop in DecodeTxs; `extra` is 1 from the Dragonfruit fork on, for the percentage. */
  function ReadTurn(bs: Bytes, pos: nat, extra: nat): (r: Turn)
    requires pos < |bs| <= MAX_LEN && extra <= 1
    ensures r.TurnOk? ==> pos + 66 <= r.next <= |bs|
  {
    var num := bs[pos];
    if num < 192 then TurnError
    else if num - 192 > 55 && pos + 1 + (num - 247) > |bs| then TurnCut
    else if num - 192 > 55 && Wrap64(Declared(bs, pos) + num) < 247 then TurnError
    else
      var length := if num - 192 > 55 then Wrap64(Declared(bs, pos) + num) - 247 else num - 192;
      var endPos := Wrap64(pos + length + 66 + extra);
      if endPos > |bs| || endPos < pos then TurnError
      else
        var dataStart := Wrap64(pos + length + 1);
        assert dataStart + 65 + extra == endPos && pos < dataStart;
        var tx := TxAt(bs, pos, dataStart);
        if tx.None? then TurnError else TurnOk(endPos, tx.value, if extra == 1 then bs[dataStart + 65] else 0)
  }

  datatype Parsed = Parsed(txs: seq<Tx>, percentages: Bytes) | Refused | CutShort

  function ReadTurns(bs: Bytes, pos: nat, extra: nat): Parsed
    requires pos <= |bs| <= MAX_LEN && extra <= 1
    decreases |bs| - pos
  {
    if pos == |bs| then Parsed([], [])
    else
      match ReadTurn(bs, pos, extra)
      case TurnError => Refused
      case TurnCut => CutShort
      case TurnOk(next, tx, percentage) =>
        Before(tx, if extra == 1 then [percentage] else [], ReadTurns(bs, next, extra))
  }

  function Before(tx: Tx, percentage: Bytes, rest: Parsed): Parsed {
    if rest.Parsed? then Parsed([tx] + rest.txs, percentage + rest.percentages) else rest
  }

  /**
   DecodeTxs. All its slices are taken here and are in range for every input and every fork; the position
   grows by at least 66 each round. A cut-short long header ends it without error and without transactions.
   */
  method DecodeTxs(txsData: Bytes, forkID: nat) returns (txs: seq<Tx>, percentages: Bytes, failed: bool)
    requires |txsData| <= MAX_LEN
    ensures failed <==> ReadTurns(txsData, 0, if forkID >= 5 then 1 else 0).Refused?
    ensures var p := ReadTurns(txsData, 0, if forkID >= 5 then 1 else 0);
            if p.Parsed? then txs == p.txs && percentages == p.percentages else txs == [] && percentages == []
    ensures forkID >= 5 ==> |percentages| == |txs|
  {
    hide ReadTurn, ReadTurns, AllBefore;
    var extra := if forkID >= 5 then 1 else 0;
    txs, percentages, failed := [], [], false;
    var pos := 0;
    NothingBefore(ReadTurns(txsData, 0, extra));
    while pos < |txsData|
      invariant 0 <= pos <= |txsData|
      invariant ReadTurns(txsData, 0, extra) == AllBefore(txs, percentages, ReadTurns(txsData, pos, extra))
      invariant extra == 1 ==> |percentages| == |txs|
      decreases |txsData| - pos
    {
      var turn := ReadTurn(txsData, pos, extra);
      TurnRead(txsData, pos, extra, txs, percentages);
      if turn.TurnCut? {
        return [], [], false;
      }
      if turn.TurnError? {
        return [], [], true;
      }
      assert percentages + [] == percentages;
      if extra == 1 {
        percentages := percentages + [turn.percentage];
      }
      txs := txs + [turn.tx];
      pos := turn.next;
    }
    AllRead(txsData, extra, txs, percentages);
  }

  lemma NothingBefore(p: Parsed)
    ensures AllBefore([], [], p) == p
  {}

  lemma AllRead(bs: Bytes, extra: nat, txs: seq<Tx>, percentages: Bytes)
    requires |bs| <= MAX_LEN && extra <= 1
    ensures AllBefore(txs, percentages, ReadTurns(bs, |bs|, extra)) == Parsed(txs, percentages)
  {
    assert txs + [] == txs && percentages + [] == percentages;
  }

  /** What one more turn does to the transactions read so far. */
  lemma TurnRead(bs: Bytes, pos: nat, extra: nat, txs: seq<Tx>, percentages: Bytes)
    requires pos < |bs| <= MAX_LEN && extra <= 1
    ensures var all := AllBefore(txs, percentages, ReadTurns(bs, pos, extra));
            match ReadTurn(bs, pos, extra)
            case TurnCut => all == CutShort
            case TurnError => all == Refused
            case TurnOk(next, tx, percentage) =>
              var p: Bytes := if extra == 1 then [percentage] else [];
              all == AllBefore(txs + [tx], percentages + p, ReadTurns(bs, next, extra))
  {
    hide ReadTurn;
    var turn := ReadTurn(bs, pos, extra);
    if turn.TurnOk? {
      var rest := ReadTurns(bs, turn.next, extra);
      var p: Bytes := if extra == 1 then [turn.percentage] else [];
      Regroup(txs, percentages, turn.tx, p, rest);
    }
  }

  lemma Regroup(txs: seq<Tx>, percentages: Bytes, tx: Tx, p: Bytes, rest: Parsed)
    ensures AllBefore(txs, percentages, Before(tx, p, rest)) == AllBefore(txs + [tx], percentages + p, rest)
  {}

  function AllBefore(txs: seq<Tx>, percentages: Bytes, rest: Parsed): Parsed {
    if rest.Parsed? then Parsed(txs + rest.txs, percentages + rest.percentages) else rest
  }

  function WithPercentages(txs: seq<Tx>, percentages: Bytes): (r: seq<L2Tx>)
    requires |percentages| == |txs|
    ensures |r| == |txs|
  {
    seq(|txs|, i requires 0 <= i < |txs| => Plain(txs[i], percentages[i]))
  }

  /** DecodeForcedBatchV2: the sanity check on the number of percentages never fires. */
  method DecodeForcedBatchV2(txsData: Bytes) returns (r: Option<seq<L2Tx>>)
    requires |txsData| <= MAX_LEN
    ensures var p := ReadTurns(txsData, 0, 1);
            && (r.None? <==> p.Refused?)
            && (p.Parsed? ==> |p.percentages| == |p.txs| && r == Some(WithPercentages(p.txs, p.percentages)))
            && (p.CutShort? ==> r == Some([]))
  {
    hide ReadTurns;
    var txs, percentages, failed := DecodeTxs(txsData, 7);
    if failed {
      return None;
    }
    if |percentages| != |txs| {
      assert false;
    }
    var transactions: seq<L2Tx> := [];
    for i := 0 to |txs|
      invariant transactions == WithPercentages(txs, percentages)[..i]
    {
      transactions := transactions + [Plain(txs[i], percentages[i])];
    }
    assert transactions == WithPercentages(txs, percentages);
    return Some(transactions);
  }

  // ----- the two parsers agree -----

  /** The header at pos is not a list header, or it is complete and the end it declares does not wrap. */
  ghost predicate Tame(bs: Bytes, pos: nat)
    requires pos < |bs|
  {
    bs[pos] >= 192 ==> pos + 1 + LenLen(bs[pos]) <= |bs| && TrueEnd(bs, pos) < 0x1_0000_0000_0000_0000
  }

  lemma TurnsAgree(bs: Bytes, pos: nat)
    requires pos < |bs| <= MAX_LEN && Tame(bs, pos)
    ensures match DecodeTxRLP(bs, pos)
            case TxOk(next, tx, percentage) => ReadTurn(bs, pos, 1) == TurnOk(next, tx, percentage)
            case TxError => ReadTurn(bs, pos, 1) == TurnError
            case OutOfRange => false
  {
    hide TxAt, Declared, ReadTurn, DecodeTxRLP, ListLength;
    if bs[pos] >= 192 {
      var end := TrueEnd(bs, pos);
      LengthGiven(bs, pos);
      RlpGiven(bs, pos, end);
      TurnGiven(bs, pos, end);
    } else {
      NotAList(bs, pos);
    }
  }

  lemma NotAList(bs: Bytes, pos: nat)
    requires pos < |bs| <= MAX_LEN && bs[pos] < 192
    ensures DecodeTxRLP(bs, pos) == TxError && ReadTurn(bs, pos, 1) == TurnError
  {}

  lemma LengthGiven(bs: Bytes, pos: nat)
    requires pos < |bs| <= MAX_LEN && bs[pos] >= 192 && pos + 1 + LenLen(bs[pos]) <= |bs|
    requires TrueEnd(bs, pos) < 0x1_0000_0000_0000_0000
    ensures ListLength(bs, pos) == Some(TrueEnd(bs, pos) - 66 - pos) && pos + 67 <= TrueEnd(bs, pos)
  {
    hide Declared;
  }

  lemma RlpGiven(bs: Bytes, pos: nat, end: nat)
    requires pos + 67 <= end < 0x1_0000_0000_0000_0000 && pos < |bs| <= MAX_LEN
             && ListLength(bs, pos) == Some(end - 66 - pos)
    ensures DecodeTxRLP(bs, pos)
            == if end > |bs| || TxAt(bs, pos, end - 66).None? then TxError
               else TxOk(end, TxAt(bs, pos, end - 66).value, bs[end - 1])
  {
    hide TxAt, ListLength, Wrap64;
    assert Wrap64(pos + (end - 66 - pos)) == end - 66;
  }

  lemma TurnGiven(bs: Bytes, pos: nat, end: nat)
    requires pos < |bs| <= MAX_LEN && bs[pos] >= 192 && pos + 1 + LenLen(bs[pos]) <= |bs|
    requires end == TrueEnd(bs, pos) < 0x1_0000_0000_0000_0000
    ensures ReadTurn(bs, pos, 1)
            == if end > |bs| || TxAt(bs, pos, end - 66).None? then TurnError
               else TurnOk(end, TxAt(bs, pos, end - 66).value, bs[end - 1])
  {
    hide TxAt, Declared, Wrap64;
  }

  /** DecodeTxRLP again and again until the data is used up. */
  function Repeated(bs: Bytes, pos: nat): Parsed
    requires pos <= |bs| <= MAX_LEN
    decreases |bs| - pos
  {
    if pos == |bs| then Parsed([], [])
    else
      match DecodeTxRLP(bs, pos)
      case TxOk(next, tx, percentage) => Before(tx, [percentage], Repeated(bs, next))
      case TxError => Refused
      case OutOfRange => CutShort
  }

  /** Every header that repeated decoding reaches is tame. */
  ghost predicate TameFrom(bs: Bytes, pos: nat)
    requires pos <= |bs| <= MAX_LEN
    decreases |bs| - pos
  {
    pos == |bs| ||
    (&& Tame(bs, pos)
     && var r := DecodeTxRLP(bs, pos); r.TxOk? ==> TameFrom(bs, r.next))
  }

  /**
   On such data DecodeTxs at ETROG and repeated DecodeTxRLP succeed together, with the same transactions and
   percentages.
   */
  lemma {:induction false} ParsersAgree(bs: Bytes, pos: nat)
    requires pos <= |bs| <= MAX_LEN && TameFrom(bs, pos)
    ensures ReadTurns(bs, pos, 1) == Repeated(bs, pos)
    decreases |bs| - pos
  {
    hide ReadTurn, DecodeTxRLP, Tame;
    if pos < |bs| {
      TurnsAgree(bs, pos);
      var r := DecodeTxRLP(bs, pos);
      if r.TxOk? {
        ParsersAgree(bs, r.next);
      }
    }
  }

  /** The long header at pos announces more length bytes than there are. */
  predicate HeaderCut(bs: Bytes, pos: nat)
    requires pos < |bs|
  {
    bs[pos] > 247 && pos + 1 + LenLen(bs[pos]) > |bs|
  }

  /** Complete transactions from pos on lead to such a header. */
  predicate LeadsToCut(bs: Bytes, pos: nat, extra: nat)
    requires pos <= |bs| <= MAX_LEN && extra <= 1
    decreases |bs| - pos
  {
    && pos < |bs|
    && (|| HeaderCut(bs, pos)
        || (var turn := ReadTurn(bs, pos, extra); turn.TurnOk? && LeadsToCut(bs, turn.next, extra)))
  }

  lemma CutTurnIff(bs: Bytes, pos: nat, extra: nat)
    requires pos < |bs| <= MAX_LEN && extra <= 1
    ensures ReadTurn(bs, pos, extra) == TurnCut <==> HeaderCut(bs, pos)
  {
    hide TxAt, Declared, Wrap64;
  }

  lemma {:induction false} CutShortIff(bs: Bytes, pos: nat, extra: nat)
    requires pos <= |bs| <= MAX_LEN && extra <= 1
    ensures ReadTurns(bs, pos, extra) == CutShort <==> LeadsToCut(bs, pos, extra)
    decreases |bs| - pos
  {
    hide ReadTurn, HeaderCut;
    if pos < |bs| {
      CutTurnIff(bs, pos, extra);
      var turn := ReadTurn(bs, pos, extra);
      if turn.TurnOk? {
        CutShortIff(bs, turn.next, extra);
      }
    }
  }

  /** A single byte does it. */
  lemma CutShortByte(extra: nat)
    requires extra <= 1
    ensures ReadTurns([0xF8], 0, extra) == CutShort
  {
    hide ReadTurn;
    CutTurnIff([0xF8], 0, extra);
  }

  /**
   Data that is not empty parses without error and without transactions exactly when it leads to a header cut
   short.
   */
  lemma SilentlyEmptyIff(bs: Bytes, extra: nat)
    requires 0 < |bs| <= MAX_LEN && extra <= 1
    ensures var p := ReadTurns(bs, 0, extra);
            (p.CutShort? || (p.Parsed? && p.txs == [])) <==> LeadsToCut(bs, 0, extra)
  {
    hide ReadTurn, LeadsToCut;
    CutShortIff(bs, 0, extra);
    var turn := ReadTurn(bs, 0, extra);
    if turn.TurnOk? {
      assert ReadTurns(bs, 0, extra)
             == Before(turn.tx, if extra == 1 then [turn.percentage] else [], ReadTurns(bs, turn.next, extra));
    }
  }
}
