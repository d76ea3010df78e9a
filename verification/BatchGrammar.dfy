/**
 What the parsers of batch V2 accept, as a grammar on bytes: an RLP list of strings with 65 bytes of signature and a
 percentage behind it is a transaction, and nothing else is.
 */
module BatchGrammar {
  import opened Rlp
  import opened Wrappers
  import opened BatchV2

  // ----- one transaction -----

  /** At pos stands the encoding of a list of six fields or more, and behind it `tail` bytes. */
  ghost predicate TxHere(bs: Bytes, pos: nat, fields: seq<Bytes>, tail: nat) {
    && Sized(fields) && |EncodeItems(fields)| < UINT64 && |fields| >= 6
    && var n := |EncodeList(fields)|;
       pos + n + tail <= |bs| && bs[pos..pos + n] == EncodeList(fields)
  }

  /** The transaction with these fields, given where they end. */
  function TxOf(bs: Bytes, end: nat, fields: seq<Bytes>): Tx
    requires end + 65 <= |bs| && |fields| >= 6
  {
    FieldsToTx(fields, bs[end + 64..end + 65], bs[end..end + 32], bs[end + 32..end + 64]).value
  }

  /** V is the byte of the signature or, with a chain id among the fields, the one of EIP-155. */
  lemma SignatureRead(fields: seq<Bytes>, parity: nat, r: Bytes, s: Bytes)
    requires |fields| >= 6 && parity <= 1
    ensures var tx := FieldsToTx(fields, [27 + parity], r, s);
            && tx.Some? && tx.value.r == NatOf(r) && tx.value.s == NatOf(s)
            && tx.value.v == if |fields| == 6 then 27 + parity else 35 + 2 * NatOf(fields[6]) + parity
  {
    hide NatOf;
    NatOfOne(27 + parity);
  }

  lemma HeaderHere(bs: Bytes, pos: nat, fields: seq<Bytes>, tail: nat)
    requires pos < |bs| <= MAX_LEN && TxHere(bs, pos, fields, tail)
    ensures var size := |EncodeItems(fields)|;
            && size < 0x8000_0000_0000_0000 && |EncodeList(fields)| == |Head(0xC0, size)| + size
            && ListLength(bs, pos) == Some(|EncodeList(fields)|)
            && (if size < 56 then bs[pos] == 0xC0 + size
                else bs[pos] > 247 && pos + 1 + LenLen(bs[pos]) <= |bs| && Declared(bs, pos) == size
                     && |EncodeList(fields)| == 1 + LenLen(bs[pos]) + size)
  {
    hide EncodeItems, Head, ListLength, Declared, Sized;
    var payload := EncodeItems(fields);
    var n := |EncodeList(fields)|;
    assert bs[pos..] == bs[pos..pos + n] + bs[pos + n..];
    assert bs[pos..] == Head(0xC0, |payload|) + (payload + bs[pos + n..]);
    ListHeaderLength(bs, pos, |payload|, payload + bs[pos + n..]);
  }

  lemma FieldsHere(bs: Bytes, pos: nat, fields: seq<Bytes>, tail: nat)
    requires TxHere(bs, pos, fields, tail) && 65 <= tail
    ensures var end := pos + |EncodeList(fields)|; TxAt(bs, pos, end) == Some(TxOf(bs, end, fields))
  {
    hide EncodeList, DecodeList, EncodeItems;
    ListRoundTrip(fields);
  }

  /** DecodeTxRLP reads what stands there. */
  lemma TxReadIs(bs: Bytes, pos: nat, fields: seq<Bytes>)
    requires pos < |bs| <= MAX_LEN && TxHere(bs, pos, fields, 66)
    ensures var end := pos + |EncodeList(fields)|;
            DecodeTxRLP(bs, pos) == TxOk(end + 66, TxOf(bs, end, fields), bs[end + 65])
  {
    hide EncodeList, EncodeItems, ListLength, TxAt, TxOf;
    HeaderHere(bs, pos, fields, 66);
    FieldsHere(bs, pos, fields, 66);
  }

  /** What TxAt accepts is the encoding of a list. */
  lemma TxAtHere(bs: Bytes, pos: nat, end: nat, tail: nat)
    requires pos <= end && end + tail <= |bs| && 65 <= tail && TxAt(bs, pos, end).Some?
    ensures exists fields :: TxHere(bs, pos, fields, tail) && pos + |EncodeList(fields)| == end
  {
    hide EncodeList, DecodeList, EncodeItems;
    ListCanonical(bs[pos..end]);
    var fields := DecodeList(bs[pos..end]).value;
    assert TxHere(bs, pos, fields, tail);
  }

  /** DecodeTxRLP accepts exactly transactions. */
  lemma TxAcceptedIff(bs: Bytes, pos: nat)
    requires pos < |bs| <= MAX_LEN
    ensures DecodeTxRLP(bs, pos).TxOk? <==> exists fields :: TxHere(bs, pos, fields, 66)
  {
    hide TxHere, TxAt;
    if fields :| TxHere(bs, pos, fields, 66) {
      TxReadIs(bs, pos, fields);
    }
    if DecodeTxRLP(bs, pos).TxOk? {
      TxAtHere(bs, pos, Wrap64(pos + ListLength(bs, pos).value), 66);
    }
  }

  /** A transaction stands from pos up to end. */
  ghost predicate TxSpan(bs: Bytes, pos: nat, end: nat, tail: nat) {
    pos < end <= |bs| && exists fields :: TxHere(bs, pos, fields, tail) && end == pos + |EncodeList(fields)| + tail
  }

  lemma TxSpanIff(bs: Bytes, pos: nat, end: nat)
    requires pos < |bs| <= MAX_LEN
    ensures TxSpan(bs, pos, end, 66) <==> DecodeTxRLP(bs, pos).TxOk? && DecodeTxRLP(bs, pos).next == end
  {
    hide EncodeList, EncodeItems, Sized, DecodeTxRLP, TxOf;
    TxAcceptedIff(bs, pos);
    forall fields | TxHere(bs, pos, fields, 66)
      ensures DecodeTxRLP(bs, pos).TxOk? && DecodeTxRLP(bs, pos).next == pos + |EncodeList(fields)| + 66
    {
      TxReadIs(bs, pos, fields);
    }
  }

  // ----- a batch -----

  datatype Piece = Header(delta: nat, index: nat) | Txn(tx: Tx, percentage: Byte)

  /** The piece at pos and the position behind it. */
  function PieceAt(bs: Bytes, pos: nat): (r: Option<(Piece, nat)>)
    requires pos < |bs| <= MAX_LEN
    ensures r.Some? ==> pos < r.value.1 <= |bs|
  {
    if bs[pos] == CHANGE_L2_BLOCK then
      if pos + 9 > |bs| then None
      else Some((Header(NatOf(bs[pos + 1..pos + 5]), NatOf(bs[pos + 5..pos + 9])), pos + 9))
    else
      match DecodeTxRLP(bs, pos)
      case TxOk(next, tx, percentage) => Some((Txn(tx, percentage), next))
      case _ => None
  }

  /** The pieces from pos on, and where there is no further one. */
  function Pieces(bs: Bytes, pos: nat): seq<Piece>
    requires pos <= |bs| <= MAX_LEN
    decreases |bs| - pos
  {
    if pos == |bs| || PieceAt(bs, pos).None? then []
    else [PieceAt(bs, pos).value.0] + Pieces(bs, PieceAt(bs, pos).value.1)
  }

  function StopAt(bs: Bytes, pos: nat): (q: nat)
    requires pos <= |bs| <= MAX_LEN
    ensures pos <= q <= |bs| && (q == |bs| || PieceAt(bs, q).None?)
    decreases |bs| - pos
  {
    if pos == |bs| || PieceAt(bs, pos).None? then pos else StopAt(bs, PieceAt(bs, pos).value.1)
  }

  /** The transactions before the first header. */
  function Leading(ps: seq<Piece>): seq<L2Tx> {
    if ps == [] || ps[0].Header? then [] else [Plain(ps[0].tx, ps[0].percentage)] + Leading(ps[1..])
  }

  /** A block for each header, with the transactions behind it. */
  function BlocksIn(ps: seq<Piece>): seq<L2Block> {
    if ps == [] then []
    else if ps[0].Header? then [L2Block(0, ps[0].delta, ps[0].index, Leading(ps[1..]))] + BlocksIn(ps[1..])
    else BlocksIn(ps[1..])
  }

  /** The error for data that goes on at q with no piece, once a block is open. */
  function ErrorAt(bs: Bytes, q: nat): BatchResult
    requires q < |bs| <= MAX_LEN
  {
    if bs[q] == CHANGE_L2_BLOCK then InvalidBatch
    else if DecodeTxRLP(bs, q).OutOfRange? then BatchOutOfRange else InvalidTx
  }

  lemma NothingLeft(bs: Bytes, cur: L2Block, done: seq<L2Block>)
    requires |bs| <= MAX_LEN
    ensures DecodeFrom(bs, |bs|, Some(cur), done) == BatchOk(done + [cur])
  {}

  /** One turn of the parser with an open block. */
  lemma OpenTurn(bs: Bytes, pos: nat, cur: L2Block, done: seq<L2Block>)
    requires pos < |bs| <= MAX_LEN
    ensures DecodeFrom(bs, pos, Some(cur), done)
            == match PieceAt(bs, pos)
               case None => ErrorAt(bs, pos)
               case Some((Header(delta, index), next)) =>
                 DecodeFrom(bs, next, Some(L2Block(0, delta, index, [])), done + [cur])
               case Some((Txn(tx, percentage), next)) =>
                 DecodeFrom(bs, next, Some(cur.(txs := cur.txs + [Plain(tx, percentage)])), done)
  {
    hide DecodeTxRLP, NatOf;
  }

  /** The parser with its accumulators gives the pieces put together. */
  lemma {:induction false} OpenBlockIs(bs: Bytes, pos: nat, cur: L2Block, done: seq<L2Block>)
    requires pos <= |bs| <= MAX_LEN
    ensures DecodeFrom(bs, pos, Some(cur), done)
            == if StopAt(bs, pos) < |bs| then ErrorAt(bs, StopAt(bs, pos))
               else BatchOk(done + [cur.(txs := cur.txs + Leading(Pieces(bs, pos)))] + BlocksIn(Pieces(bs, pos)))
    decreases |bs| - pos
  {
    hide DecodeFrom, PieceAt, ErrorAt;
    if pos == |bs| {
      NothingLeft(bs, cur, done);
      assert cur.txs + [] == cur.txs;
      return;
    }
    OpenTurn(bs, pos, cur, done);
    if PieceAt(bs, pos).Some? {
      var (piece, next) := PieceAt(bs, pos).value;
      var rest := Pieces(bs, next);
      assert ([piece] + rest)[1..] == rest;
      match piece
      case Header(delta, index) =>
        var b := L2Block(0, delta, index, []);
        OpenBlockIs(bs, next, b, done + [cur]);
        assert [] + Leading(rest) == Leading(rest) && cur.txs + [] == cur.txs;
        assert done + [cur] + [b.(txs := Leading(rest))] + BlocksIn(rest)
            == done + [cur] + ([b.(txs := Leading(rest))] + BlocksIn(rest));
      case Txn(tx, percentage) =>
        var more := cur.txs + [Plain(tx, percentage)];
        OpenBlockIs(bs, next, cur.(txs := more), done);
        assert more + Leading(rest) == cur.txs + ([Plain(tx, percentage)] + Leading(rest));
    }
  }

  /** DecodeBatchV2 for every input: accepted or not, the blocks, and which error. */
  lemma BatchIs(bs: Bytes)
    requires |bs| <= MAX_LEN
    ensures DecodeFrom(bs, 0, None, [])
            == if bs == [] then BatchOk([])
               else if bs[0] != CHANGE_L2_BLOCK then
                 (match DecodeTxRLP(bs, 0)
                  case TxOk(_, _, _) => StartsWithTx
                  case TxError => InvalidBatch
                  case OutOfRange => BatchOutOfRange)
               else if StopAt(bs, 0) < |bs| then ErrorAt(bs, StopAt(bs, 0))
               else BatchOk(BlocksIn(Pieces(bs, 0)))
  {
    hide DecodeTxRLP, NatOf;
    if bs != [] && bs[0] == CHANGE_L2_BLOCK && PieceAt(bs, 0).Some? {
      var (piece, next) := PieceAt(bs, 0).value;
      var rest, b := Pieces(bs, next), L2Block(0, piece.delta, piece.index, []);
      OpenBlockIs(bs, next, b, []);
      assert ([piece] + rest)[1..] == rest;
      assert [] + Leading(rest) == Leading(rest);
      assert [] + [b.(txs := Leading(rest))] + BlocksIn(rest) == [b.(txs := Leading(rest))] + BlocksIn(rest);
    }
  }

  /** From pos on the data is nothing but nine-byte headers and transactions. */
  ghost predicate InGrammar(bs: Bytes, pos: nat)
    requires pos <= |bs|
    decreases |bs| - pos
  {
    || pos == |bs|
    || (pos + 9 <= |bs| && bs[pos] == CHANGE_L2_BLOCK && InGrammar(bs, pos + 9))
    || (exists end {:trigger TxSpan(bs, pos, end, 66)} ::
          pos < end <= |bs| && TxSpan(bs, pos, end, 66) && InGrammar(bs, end))
  }

  lemma ListStarts(bs: Bytes, pos: nat, end: nat, tail: nat)
    requires TxSpan(bs, pos, end, tail)
    ensures bs[pos] >= 0xC0
  {
    var fields :| TxHere(bs, pos, fields, tail) && end == pos + |EncodeList(fields)| + tail;
    assert bs[pos] == bs[pos..pos + |EncodeList(fields)|][0];
  }

  lemma {:induction false} InGrammarIff(bs: Bytes, pos: nat)
    requires pos <= |bs| <= MAX_LEN
    ensures InGrammar(bs, pos) <==> StopAt(bs, pos) == |bs|
    decreases |bs| - pos
  {
    hide TxSpan, DecodeTxRLP, NatOf;
    if pos < |bs| {
      forall end: nat
        ensures TxSpan(bs, pos, end, 66) <==> DecodeTxRLP(bs, pos).TxOk? && DecodeTxRLP(bs, pos).next == end
        ensures TxSpan(bs, pos, end, 66) ==> bs[pos] >= 0xC0
      {
        TxSpanIff(bs, pos, end);
        if TxSpan(bs, pos, end, 66) {
          ListStarts(bs, pos, end, 66);
        }
      }
      if PieceAt(bs, pos).Some? {
        var next := PieceAt(bs, pos).value.1;
        assert bs[pos] != CHANGE_L2_BLOCK ==> TxSpan(bs, pos, next, 66);
        InGrammarIff(bs, next);
      }
    }
  }

  /** DecodeBatchV2 accepts exactly the empty data and what starts with a header and is in the grammar. */
  lemma BatchAcceptedIff(bs: Bytes)
    requires |bs| <= MAX_LEN
    ensures DecodeFrom(bs, 0, None, []).BatchOk? <==> bs == [] || (bs[0] == CHANGE_L2_BLOCK && InGrammar(bs, 0))
  {
    hide DecodeTxRLP, DecodeFrom, InGrammar, Pieces, StopAt;
    BatchIs(bs);
    InGrammarIff(bs, 0);
  }

  // ----- DecodeTxs -----

  /** One turn of DecodeTxs reads what stands there. */
  lemma TurnReadIs(bs: Bytes, pos: nat, fields: seq<Bytes>, extra: nat)
    requires pos < |bs| <= MAX_LEN && extra <= 1 && TxHere(bs, pos, fields, 65 + extra)
    ensures var end := pos + |EncodeList(fields)|;
            ReadTurn(bs, pos, extra)
            == TurnOk(end + 65 + extra, TxOf(bs, end, fields), if extra == 1 then bs[end + 65] else 0)
  {
    hide EncodeList, EncodeItems, ListLength, TxAt, TxOf, Declared;
    HeaderHere(bs, pos, fields, 65 + extra);
    FieldsHere(bs, pos, fields, 65 + extra);
  }

  /** It accepts exactly transactions. */
  lemma TurnAcceptedIff(bs: Bytes, pos: nat, tail: nat)
    requires pos < |bs| <= MAX_LEN && 65 <= tail <= 66
    ensures ReadTurn(bs, pos, tail - 65).TurnOk? <==> exists fields :: TxHere(bs, pos, fields, tail)
  {
    hide TxHere, TxAt, Declared;
    if fields :| TxHere(bs, pos, fields, tail) {
      TurnReadIs(bs, pos, fields, tail - 65);
    }
    if ReadTurn(bs, pos, tail - 65).TurnOk? {
      TxAtHere(bs, pos, ReadTurn(bs, pos, tail - 65).next - tail, tail);
    }
  }

  lemma TurnSpanIff(bs: Bytes, pos: nat, end: nat, tail: nat)
    requires pos < |bs| <= MAX_LEN && 65 <= tail <= 66
    ensures var turn := ReadTurn(bs, pos, tail - 65); TxSpan(bs, pos, end, tail) <==> turn.TurnOk? && turn.next == end
  {
    hide EncodeList, EncodeItems, Sized, ReadTurn, TxOf;
    TurnAcceptedIff(bs, pos, tail);
    var turn := ReadTurn(bs, pos, tail - 65);
    forall fields | TxHere(bs, pos, fields, tail)
      ensures turn.TurnOk? && turn.next == pos + |EncodeList(fields)| + tail
    {
      TurnReadIs(bs, pos, fields, tail - 65);
    }
  }

  /** From pos on the data is nothing but transactions. */
  ghost predicate Transactions(bs: Bytes, pos: nat, tail: nat)
    requires pos <= |bs|
    decreases |bs| - pos
  {
    || pos == |bs|
    || (exists end {:trigger TxSpan(bs, pos, end, tail)} ::
          pos < end <= |bs| && TxSpan(bs, pos, end, tail) && Transactions(bs, end, tail))
  }

  /**
   DecodeTxs gives transactions exactly for data that is nothing but transactions. Other data is refused, unless it
   leads to a long header that is cut short.
   */
  lemma {:induction false} TxsAcceptedIff(bs: Bytes, pos: nat, tail: nat)
    requires pos <= |bs| <= MAX_LEN && 65 <= tail <= 66
    ensures ReadTurns(bs, pos, tail - 65).Parsed? <==> Transactions(bs, pos, tail)
    ensures ReadTurns(bs, pos, tail - 65).CutShort? <==> LeadsToCut(bs, pos, tail - 65)
    decreases |bs| - pos
  {
    hide TxSpan, ReadTurn, LeadsToCut;
    CutShortIff(bs, pos, tail - 65);
    if pos < |bs| {
      var turn := ReadTurn(bs, pos, tail - 65);
      forall end: nat
        ensures TxSpan(bs, pos, end, tail) <==> turn.TurnOk? && turn.next == end
      {
        TurnSpanIff(bs, pos, end, tail);
      }
      if turn.TurnOk? {
        assert TxSpan(bs, pos, turn.next, tail);
        TxsAcceptedIff(bs, turn.next, tail);
      }
    }
  }
}
