/** The typed events of include/lob/itch.hpp and the decoder of src/itch/itch.cpp, for the native
    TotalView-ITCH 5.0 framing. A character is its byte. */
module Itch {
  import opened Common

  type U16 = n: nat | n < 0x1_0000
  type U32 = n: nat | n < 0x1_0000_0000
  type U64 = n: nat | n < 0x1_0000_0000_0000_0000
  type Chars2 = s: seq<Byte> | |s| == 2 witness [0, 0]
  type Chars4 = s: seq<Byte> | |s| == 4 witness [0, 0, 0, 0]
  type Chars8 = s: seq<Byte> | |s| == 8 witness [0, 0, 0, 0, 0, 0, 0, 0]

  datatype Header = Header(stockLocate: StockLocate, trackingNumber: U16, timestamp: Timestamp)

  datatype ItchEvent =
    | SystemEvent(header: Header, eventCode: Byte)
    | StockDirectory(header: Header, stock: Chars8, marketCategory: Byte, financialStatus: Byte, roundLotSize: U32,
                     roundLotsOnly: Byte, issueClassification: Byte, issueSubType: Chars2, authenticity: Byte,
                     shortSaleThreshold: Byte, ipoFlag: Byte, luldTier: Byte, etpFlag: Byte, etpLeverage: U32,
                     inverseIndicator: Byte)
    | TradingAction(header: Header, stock: Chars8, tradingState: Byte, reserved: Byte, reason: Chars4)
    | AddOrder(header: Header, orderReference: OrderId, side: Side, shares: Quantity, stock: Chars8, price: Price)
    | AddAttributedOrder(header: Header, orderReference: OrderId, side: Side, shares: Quantity, stock: Chars8,
                         price: Price, attribution: Chars4)
    | OrderExecuted(header: Header, orderReference: OrderId, executedShares: Quantity, matchNumber: MatchId)
    | OrderExecutedWithPrice(header: Header, orderReference: OrderId, executedShares: Quantity, matchNumber: MatchId,
                             printable: Byte, executionPrice: Price)
    | OrderCancel(header: Header, orderReference: OrderId, canceledShares: Quantity)
    | OrderDelete(header: Header, orderReference: OrderId)
    | OrderReplace(header: Header, originalReference: OrderId, newReference: OrderId, shares: Quantity, price: Price)
    | Trade(header: Header, orderReference: OrderId, side: Side, shares: Quantity, stock: Chars8, price: Price,
            matchNumber: MatchId)
    | CrossTrade(header: Header, crossShares: U64, stock: Chars8, crossPrice: Price, matchNumber: MatchId, crossType: Byte)
    | BrokenTrade(header: Header, matchNumber: MatchId)
    | NetOrderImbalance(header: Header, pairedShares: U64, imbalanceShares: U64, imbalanceDirection: Byte, stock: Chars8,
                        farPrice: Price, nearPrice: Price, referencePrice: Price, crossType: Byte, priceVariation: Byte)
    | SkippedMessage(messageType: Byte, skippedHeader: Option<Header>)

  datatype DecodeErrorCode = InvalidFrameLength | UnexpectedMessageLength | InvalidSide

  datatype DecodeResult =
    | Complete(event: ItchEvent, bytesConsumed: nat)
    | NeedMoreData
    | Error(code: DecodeErrorCode, offset: nat)

  const FRAME_PREFIX_BYTES: nat := 2
  const COMMON_HEADER_BYTES: nat := 11
  const BUY_BYTE: Byte := 66
  const SELL_BYTE: Byte := 83

  function Pow256(n: nat): (p: nat)
    ensures p >= 1
  {
    if n == 0 then 1 else 0x100 * Pow256(n - 1)
  }

  /** The big-endian value of a string of bytes. */
  function BigEndian(b: seq<Byte>): (v: nat)
    ensures v < Pow256(|b|)
  {
    if b == [] then 0 else 0x100 * BigEndian(b[..|b| - 1]) + b[|b| - 1]
  }

  lemma Pow256Values()
    ensures Pow256(2) == 0x1_0000 && Pow256(4) == 0x1_0000_0000
    ensures Pow256(6) == 0x1_0000_0000_0000 && Pow256(8) == 0x1_0000_0000_0000_0000
  {
    assert Pow256(2) == 0x1_0000;
    assert Pow256(4) == 0x1_0000 * Pow256(2);
    assert Pow256(6) == 0x1_0000 * Pow256(4);
    assert Pow256(8) == 0x1_0000 * Pow256(6);
  }

  function Read2(m: seq<Byte>, at: nat): U16
    requires at + 2 <= |m|
  {
    Pow256Values();
    BigEndian(m[at..at + 2])
  }

  function Read4(m: seq<Byte>, at: nat): U32
    requires at + 4 <= |m|
  {
    Pow256Values();
    BigEndian(m[at..at + 4])
  }

  function Read6(m: seq<Byte>, at: nat): Timestamp
    requires at + 6 <= |m|
  {
    Pow256Values();
    BigEndian(m[at..at + 6])
  }

  function Read8(m: seq<Byte>, at: nat): U64
    requires at + 8 <= |m|
  {
    Pow256Values();
    BigEndian(m[at..at + 8])
  }

  function ReadHeader(m: seq<Byte>): Header
    requires |m| >= COMMON_HEADER_BYTES
  {
    Header(Read2(m, 1), Read2(m, 3), Read6(m, 5))
  }

  predicate ValidSide(b: Byte) {
    b == BUY_BYTE || b == SELL_BYTE
  }

  function ToSide(b: Byte): Side {
    if b == BUY_BYTE then Buy else Sell
  }

  /** The length every modelled message type must have; none for a type that is skipped. */
  function MessageLength(messageType: Byte): Option<nat> {
    match messageType
    case 83 => Some(12) // S
    case 82 => Some(39) // R
    case 72 => Some(25) // H
    case 65 => Some(36) // A
    case 70 => Some(40) // F
    case 69 => Some(31) // E
    case 67 => Some(36) // C
    case 88 => Some(23) // X
    case 68 => Some(19) // D
    case 85 => Some(35) // U
    case 80 => Some(44) // P
    case 81 => Some(40) // Q
    case 66 => Some(19) // B
    case 73 => Some(50) // I
    case _ => None
  }

  /** Decode one message, without its length prefix. */
  function DecodeMessage(m: seq<Byte>, consumed: nat): DecodeResult
    requires |m| > 0
  {
    var length := MessageLength(m[0]);
    if length.Some? && |m| != length.value then
      Error(UnexpectedMessageLength, FRAME_PREFIX_BYTES)
    // A, F and P carry a side.
    else if m[0] in {65, 70, 80} && !ValidSide(m[19]) then
      Error(InvalidSide, FRAME_PREFIX_BYTES + 19)
    else
      Complete(DecodeEvent(m), consumed)
  }

  /** The types that change the displayed book: A, F, E, C, X, D and U. */
  predicate IsOrderType(messageType: Byte) {
    messageType in {65, 70, 69, 67, 88, 68, 85}
  }

  predicate LengthOk(m: seq<Byte>) {
    |m| > 0 && (MessageLength(m[0]).Some? ==> |m| == MessageLength(m[0]).value)
  }

  /** The event of a message whose length and side byte have been checked. */
  function DecodeEvent(m: seq<Byte>): ItchEvent
    requires LengthOk(m)
  {
    if IsOrderType(m[0]) then DecodeOrderEvent(m) else DecodeOtherEvent(m)
  }

  function DecodeOrderEvent(m: seq<Byte>): ItchEvent
    requires LengthOk(m) && IsOrderType(m[0])
  {
    match m[0]
    case 65 => AddOrder(ReadHeader(m), Read8(m, 11), ToSide(m[19]), Read4(m, 20), m[24..32], Read4(m, 32))
    case 70 => AddAttributedOrder(ReadHeader(m), Read8(m, 11), ToSide(m[19]), Read4(m, 20), m[24..32], Read4(m, 32),
                                  m[36..40])
    case 69 => OrderExecuted(ReadHeader(m), Read8(m, 11), Read4(m, 19), Read8(m, 23))
    case 67 => OrderExecutedWithPrice(ReadHeader(m), Read8(m, 11), Read4(m, 19), Read8(m, 23), m[31], Read4(m, 32))
    case 88 => OrderCancel(ReadHeader(m), Read8(m, 11), Read4(m, 19))
    case 68 => OrderDelete(ReadHeader(m), Read8(m, 11))
    case 85 => OrderReplace(ReadHeader(m), Read8(m, 11), Read8(m, 19), Read4(m, 27), Read4(m, 31))
  }

  function DecodeOtherEvent(m: seq<Byte>): ItchEvent
    requires LengthOk(m) && !IsOrderType(m[0])
  {
    match m[0]
    case 83 => SystemEvent(ReadHeader(m), m[11])
    case 82 => StockDirectory(ReadHeader(m), m[11..19], m[19], m[20], Read4(m, 21), m[25], m[26], m[27..29], m[29],
                              m[30], m[31], m[32], m[33], Read4(m, 34), m[38])
    case 72 => TradingAction(ReadHeader(m), m[11..19], m[19], m[20], m[21..25])
    case 80 => Trade(ReadHeader(m), Read8(m, 11), ToSide(m[19]), Read4(m, 20), m[24..32], Read4(m, 32), Read8(m, 36))
    case 81 => CrossTrade(ReadHeader(m), Read8(m, 11), m[19..27], Read4(m, 27), Read8(m, 31), m[39])
    case 66 => BrokenTrade(ReadHeader(m), Read8(m, 11))
    case 73 => NetOrderImbalance(ReadHeader(m), Read8(m, 11), Read8(m, 19), m[27], m[28..36], Read4(m, 36), Read4(m, 40),
                                 Read4(m, 44), m[48], m[49])
    case t => SkippedMessage(t, if |m| >= COMMON_HEADER_BYTES then Some(ReadHeader(m)) else None)
  }

  /** Decode the frame at the start of `input`. */
  function DecodeNext(input: seq<Byte>): DecodeResult {
    if |input| < FRAME_PREFIX_BYTES then NeedMoreData
    else
      var length := Read2(input, 0);
      if length == 0 then Error(InvalidFrameLength, 0)
      else if |input| < FRAME_PREFIX_BYTES + length then NeedMoreData
      else DecodeMessage(input[2..2 + length], 2 + length)
  }
}
