/** The inverse of the frame decoder: the bytes of an event, as the encoding helpers of tests/itch_test.cpp
    write them, and the proof that the layouts of src/itch/itch.cpp lose nothing. */
module ItchCodec {
  import opened Common
  import opened Bits
  import opened Itch

  // ---- the loops that read a field ----

  /** read_be: the value of `size` bytes, accumulated in an unsigned integer of that width. */
  method ReadBe(bytes: seq<Byte>, offset: nat, size: nat) returns (value: nat)
    requires offset + size <= |bytes|
    ensures value == BigEndian(bytes[offset..offset + size])
  {
    value := 0;
    for index := 0 to size
      invariant value == BigEndian(bytes[offset..offset + index])
    {
      ShiftIn(value, bytes[offset + index], index + 1, size);
      OneMoreByte(bytes, offset, index);
      value := BitOr(value * 0x100, bytes[offset + index]) % Pow256(size);
    }
  }

  /** read_timestamp: six bytes, accumulated in a 64-bit integer. */
  method ReadTimestamp(bytes: seq<Byte>, offset: nat) returns (value: Timestamp)
    requires offset + 6 <= |bytes|
    ensures value == Read6(bytes, offset)
  {
    var wide := 0;
    for index := 0 to 6
      invariant wide == BigEndian(bytes[offset..offset + index])
    {
      ShiftIn(wide, bytes[offset + index], index + 1, 8);
      OneMoreByte(bytes, offset, index);
      wide := BitOr(wide * 0x100, bytes[offset + index]) % Pow256(8);
    }
    Pow256Values();
    value := wide;
  }

  /** read_chars: the array is filled one character at a time. */
  method ReadChars(bytes: seq<Byte>, offset: nat, count: nat) returns (value: array<Byte>)
    requires offset + count <= |bytes|
    ensures fresh(value) && value[..] == bytes[offset..offset + count]
  {
    value := new Byte[count](_ => 0);
    for index := 0 to count
      invariant value[..index] == bytes[offset..offset + index]
    {
      value[index] := bytes[offset + index];
    }
  }

  lemma Small(n: nat, d: nat)
    requires n < d
    ensures n % d == n
  {
  }

  /** Shifting a byte into a value that still has room for it. */
  lemma ShiftIn(value: nat, byte: Byte, used: nat, size: nat)
    requires 0 < used <= size && value < Pow256(used - 1)
    ensures BitOr(value * 0x100, byte) % Pow256(size) == 0x100 * value + byte
  {
    Pow2Values();
    OrDisjoint(value, byte, 8);
    Pow256Monotone(used, size);
    assert 0x100 * value + byte < Pow256(used);
    Small(0x100 * value + byte, Pow256(size));
  }

  lemma {:induction false} Pow256Monotone(m: nat, n: nat)
    requires m <= n
    ensures Pow256(m) <= Pow256(n)
  {
    if m < n {
      Pow256Monotone(m, n - 1);
    }
  }

  lemma OneMoreByte(bytes: seq<Byte>, offset: nat, n: nat)
    requires offset + n < |bytes|
    ensures BigEndian(bytes[offset..offset + n + 1]) == 0x100 * BigEndian(bytes[offset..offset + n]) + bytes[offset + n]
  {
    var b := bytes[offset..offset + n + 1];
    assert b[..|b| - 1] == bytes[offset..offset + n];
  }

  // ---- the encoder ----

  /** append_u16 to append_u64: `n` bytes, the most significant first. */
  function ToBytes(n: nat, value: nat): (b: seq<Byte>)
    ensures |b| == n
  {
    if n == 0 then [] else ToBytes(n - 1, value / 0x100) + [value % 0x100]
  }

  lemma {:induction false} BytesOfNumber(n: nat, value: nat)
    requires value < Pow256(n)
    ensures BigEndian(ToBytes(n, value)) == value
  {
    if n > 0 {
      BytesOfNumber(n - 1, value / 0x100);
      var b := ToBytes(n, value);
      assert b[..|b| - 1] == ToBytes(n - 1, value / 0x100);
    }
  }

  lemma {:induction false} NumberOfBytes(b: seq<Byte>)
    ensures ToBytes(|b|, BigEndian(b)) == b
  {
    if b != [] {
      var front, last := b[..|b| - 1], b[|b| - 1];
      NumberOfBytes(front);
      assert BigEndian(b) / 0x100 == BigEndian(front) && BigEndian(b) % 0x100 == last;
      assert b == front + [last];
    }
  }

  function SideByte(side: Side): Byte {
    if side == Buy then BUY_BYTE else SELL_BYTE
  }

  function HeaderBytes(h: Header): (b: seq<Byte>)
    ensures |b| == 10
  {
    ToBytes(2, h.stockLocate) + (ToBytes(2, h.trackingNumber) + ToBytes(6, h.timestamp))
  }

  /** The fields after the header, in the order of the message layouts. */
  function Body(e: ItchEvent): seq<Byte>
    requires !e.SkippedMessage?
  {
    match e
    case SystemEvent(_, _) =>
      [e.eventCode]
    case StockDirectory(_, _, _, _, _, _, _, _, _, _, _, _, _, _, _) =>
      e.stock + ([e.marketCategory] + ([e.financialStatus] + (ToBytes(4, e.roundLotSize) + ([e.roundLotsOnly] +
        ([e.issueClassification] + (e.issueSubType + ([e.authenticity] + ([e.shortSaleThreshold] + ([e.ipoFlag] +
        ([e.luldTier] + ([e.etpFlag] + (ToBytes(4, e.etpLeverage) + [e.inverseIndicator]))))))))))))
    case TradingAction(_, _, _, _, _) =>
      e.stock + ([e.tradingState] + ([e.reserved] + e.reason))
    case AddOrder(_, _, _, _, _, _) =>
      ToBytes(8, e.orderReference) + ([SideByte(e.side)] + (ToBytes(4, e.shares) + (e.stock + ToBytes(4, e.price))))
    case AddAttributedOrder(_, _, _, _, _, _, _) =>
      ToBytes(8, e.orderReference) + ([SideByte(e.side)] + (ToBytes(4, e.shares) + (e.stock + (ToBytes(4, e.price) +
        e.attribution))))
    case OrderExecuted(_, _, _, _) =>
      ToBytes(8, e.orderReference) + (ToBytes(4, e.executedShares) + ToBytes(8, e.matchNumber))
    case OrderExecutedWithPrice(_, _, _, _, _, _) =>
      ToBytes(8, e.orderReference) + (ToBytes(4, e.executedShares) + (ToBytes(8, e.matchNumber) + ([e.printable] +
        ToBytes(4, e.executionPrice))))
    case OrderCancel(_, _, _) =>
      ToBytes(8, e.orderReference) + ToBytes(4, e.canceledShares)
    case OrderDelete(_, _) =>
      ToBytes(8, e.orderReference)
    case OrderReplace(_, _, _, _, _) =>
      ToBytes(8, e.originalReference) + (ToBytes(8, e.newReference) + (ToBytes(4, e.shares) + ToBytes(4, e.price)))
    case Trade(_, _, _, _, _, _, _) =>
      ToBytes(8, e.orderReference) + ([SideByte(e.side)] + (ToBytes(4, e.shares) + (e.stock + (ToBytes(4, e.price) +
        ToBytes(8, e.matchNumber)))))
    case CrossTrade(_, _, _, _, _, _) =>
      ToBytes(8, e.crossShares) + (e.stock + (ToBytes(4, e.crossPrice) + (ToBytes(8, e.matchNumber) +
        [e.crossType])))
    case BrokenTrade(_, _) =>
      ToBytes(8, e.matchNumber)
    case NetOrderImbalance(_, _, _, _, _, _, _, _, _, _) =>
      ToBytes(8, e.pairedShares) + (ToBytes(8, e.imbalanceShares) + ([e.imbalanceDirection] + (e.stock +
        (ToBytes(4, e.farPrice) + (ToBytes(4, e.nearPrice) + (ToBytes(4, e.referencePrice) + ([e.crossType] +
        [e.priceVariation])))))))
  }

  function TypeByte(e: ItchEvent): Byte
    requires !e.SkippedMessage?
  {
    match e
    case SystemEvent(_, _) => 83 // S
    case StockDirectory(_, _, _, _, _, _, _, _, _, _, _, _, _, _, _) => 82 // R
    case TradingAction(_, _, _, _, _) => 72 // H
    case AddOrder(_, _, _, _, _, _) => 65 // A
    case AddAttributedOrder(_, _, _, _, _, _, _) => 70 // F
    case OrderExecuted(_, _, _, _) => 69 // E
    case OrderExecutedWithPrice(_, _, _, _, _, _) => 67 // C
    case OrderCancel(_, _, _) => 88 // X
    case OrderDelete(_, _) => 68 // D
    case OrderReplace(_, _, _, _, _) => 85 // U
    case Trade(_, _, _, _, _, _, _) => 80 // P
    case CrossTrade(_, _, _, _, _, _) => 81 // Q
    case BrokenTrade(_, _) => 66 // B
    case NetOrderImbalance(_, _, _, _, _, _, _, _, _, _) => 73 // I
  }

  /** One message: type, header and fields. */
  function Message(e: ItchEvent): seq<Byte>
    requires !e.SkippedMessage?
  {
    [TypeByte(e)] + (HeaderBytes(e.header) + Body(e))
  }

  /** One frame: the message behind its length. */
  function Encode(e: ItchEvent): seq<Byte>
    requires !e.SkippedMessage?
  {
    ToBytes(2, |Message(e)|) + Message(e)
  }

  // ---- one field at a time ----

  /** `m` from position `at` on is `s`. */
  ghost predicate From(m: seq<Byte>, at: nat, s: seq<Byte>) {
    at <= |m| && m[at..] == s
  }

  /** What `m` holds from `at` on is the field and then the rest. */
  lemma Part(m: seq<Byte>, at: nat, field: seq<Byte>, rest: seq<Byte>) returns (both: seq<Byte>)
    requires at + |field| <= |m|
    ensures both == field + rest
    ensures From(m, at, both) <==> m[at..at + |field|] == field && From(m, at + |field|, rest)
  {
    both := field + rest;
    var n := at + |field|;
    assert m[at..] == m[at..n] + m[n..];
    assert both[..|field|] == field && both[|field|..] == rest;
    assert m[at..][..|field|] == m[at..n] && m[at..][|field|..] == m[n..];
  }

  /** The last field. */
  lemma Last(m: seq<Byte>, at: nat, field: seq<Byte>)
    requires at + |field| == |m|
    ensures From(m, at, field) <==> m[at..at + |field|] == field
  {
  }

  lemma PartByte(m: seq<Byte>, at: nat, byte: Byte, rest: seq<Byte>) returns (both: seq<Byte>)
    requires at < |m|
    ensures both == [byte] + rest
    ensures From(m, at, both) <==> m[at] == byte && From(m, at + 1, rest)
  {
    hide From;
    both := Part(m, at, [byte], rest);
    assert m[at..at + 1] == [m[at]];
  }

  lemma LastByte(m: seq<Byte>, byte: Byte)
    requires |m| > 0
    ensures From(m, |m| - 1, [byte]) <==> m[|m| - 1] == byte
  {
    assert m[|m| - 1..] == [m[|m| - 1]];
  }

  lemma PartNumber(m: seq<Byte>, at: nat, n: nat, value: nat, rest: seq<Byte>) returns (both: seq<Byte>)
    requires at + n <= |m| && value < Pow256(n)
    ensures both == ToBytes(n, value) + rest
    ensures From(m, at, both) <==> BigEndian(m[at..at + n]) == value && From(m, at + n, rest)
  {
    hide From, ToBytes, BigEndian;
    both := Part(m, at, ToBytes(n, value), rest);
    BytesOfNumber(n, value);
    NumberOfBytes(m[at..at + n]);
  }

  lemma LastNumber(m: seq<Byte>, n: nat, value: nat)
    requires n <= |m| && value < Pow256(n)
    ensures From(m, |m| - n, ToBytes(n, value)) <==> BigEndian(m[|m| - n..]) == value
  {
    hide ToBytes, BigEndian;
    BytesOfNumber(n, value);
    NumberOfBytes(m[|m| - n..]);
  }

  lemma HeaderLayout(m: seq<Byte>, e: ItchEvent)
    requires !e.SkippedMessage? && |m| >= 11
    ensures m == Message(e) <==> m[0] == TypeByte(e) && ReadHeader(m) == e.header && From(m, 11, Body(e))
  {
    hide From, Body, TypeByte, ToBytes, BigEndian;
    var h := e.header;
    Pow256Values();
    var r := PartNumber(m, 5, 6, h.timestamp, Body(e));
    r := PartNumber(m, 3, 2, h.trackingNumber, r);
    r := PartNumber(m, 1, 2, h.stockLocate, r);
    assert r == HeaderBytes(h) + Body(e);
    r := PartByte(m, 0, TypeByte(e), r);
    Whole(m, Message(e));
  }

  lemma Whole(m: seq<Byte>, s: seq<Byte>)
    ensures From(m, 0, s) <==> m == s
  {
    assert m[0..] == m;
  }

  // ---- the layouts: a message is the encoding of an event exactly when it decodes to it ----

  lemma SystemEventLayout(m: seq<Byte>, e: ItchEvent)
    requires e.SystemEvent? && |m| == 12 && m[0] == 83
    ensures m == Message(e) <==> DecodeEvent(m) == e
  {
    hide From, ToBytes, BigEndian, Message, HeaderBytes;
    Pow256Values();
    LastByte(m, e.eventCode);
    HeaderLayout(m, e);
  }

  lemma StockDirectoryLayout(m: seq<Byte>, e: ItchEvent)
    requires e.StockDirectory? && |m| == 39 && m[0] == 82
    ensures m == Message(e) <==> DecodeEvent(m) == e
  {
    hide From, ToBytes, BigEndian, Message, HeaderBytes;
    Pow256Values();
    LastByte(m, e.inverseIndicator);
    var r := PartNumber(m, 34, 4, e.etpLeverage, [e.inverseIndicator]);
    r := PartByte(m, 33, e.etpFlag, r);
    r := PartByte(m, 32, e.luldTier, r);
    r := PartByte(m, 31, e.ipoFlag, r);
    r := PartByte(m, 30, e.shortSaleThreshold, r);
    r := PartByte(m, 29, e.authenticity, r);
    r := Part(m, 27, e.issueSubType, r);
    r := PartByte(m, 26, e.issueClassification, r);
    r := PartByte(m, 25, e.roundLotsOnly, r);
    r := PartNumber(m, 21, 4, e.roundLotSize, r);
    r := PartByte(m, 20, e.financialStatus, r);
    r := PartByte(m, 19, e.marketCategory, r);
    r := Part(m, 11, e.stock, r);
    HeaderLayout(m, e);
    assert r == Body(e);
  }

  lemma TradingActionLayout(m: seq<Byte>, e: ItchEvent)
    requires e.TradingAction? && |m| == 25 && m[0] == 72
    ensures m == Message(e) <==> DecodeEvent(m) == e
  {
    hide From, ToBytes, BigEndian, Message, HeaderBytes;
    Pow256Values();
    Last(m, 21, e.reason);
    var r := PartByte(m, 20, e.reserved, e.reason);
    r := PartByte(m, 19, e.tradingState, r);
    r := Part(m, 11, e.stock, r);
    HeaderLayout(m, e);
    assert r == Body(e);
  }

  lemma AddOrderLayout(m: seq<Byte>, e: ItchEvent)
    requires e.AddOrder? && |m| == 36 && m[0] == 65 && ValidSide(m[19])
    ensures m == Message(e) <==> DecodeEvent(m) == e
  {
    hide From, ToBytes, BigEndian, Message, HeaderBytes;
    Pow256Values();
    LastNumber(m, 4, e.price);
    assert m[32..] == m[32..36];
    var r := Part(m, 24, e.stock, ToBytes(4, e.price));
    r := PartNumber(m, 20, 4, e.shares, r);
    r := PartByte(m, 19, SideByte(e.side), r);
    r := PartNumber(m, 11, 8, e.orderReference, r);
    HeaderLayout(m, e);
    assert r == Body(e);
  }

  lemma AddAttributedOrderLayout(m: seq<Byte>, e: ItchEvent)
    requires e.AddAttributedOrder? && |m| == 40 && m[0] == 70 && ValidSide(m[19])
    ensures m == Message(e) <==> DecodeEvent(m) == e
  {
    hide From, ToBytes, BigEndian, Message, HeaderBytes;
    Pow256Values();
    Last(m, 36, e.attribution);
    var r := PartNumber(m, 32, 4, e.price, e.attribution);
    r := Part(m, 24, e.stock, r);
    r := PartNumber(m, 20, 4, e.shares, r);
    r := PartByte(m, 19, SideByte(e.side), r);
    r := PartNumber(m, 11, 8, e.orderReference, r);
    HeaderLayout(m, e);
    assert r == Body(e);
  }

  lemma OrderExecutedLayout(m: seq<Byte>, e: ItchEvent)
    requires e.OrderExecuted? && |m| == 31 && m[0] == 69
    ensures m == Message(e) <==> DecodeEvent(m) == e
  {
    hide From, ToBytes, BigEndian, Message, HeaderBytes;
    Pow256Values();
    LastNumber(m, 8, e.matchNumber);
    assert m[23..] == m[23..31];
    var r := PartNumber(m, 19, 4, e.executedShares, ToBytes(8, e.matchNumber));
    r := PartNumber(m, 11, 8, e.orderReference, r);
    HeaderLayout(m, e);
    assert r == Body(e);
  }

  lemma OrderExecutedWithPriceLayout(m: seq<Byte>, e: ItchEvent)
    requires e.OrderExecutedWithPrice? && |m| == 36 && m[0] == 67
    ensures m == Message(e) <==> DecodeEvent(m) == e
  {
    hide From, ToBytes, BigEndian, Message, HeaderBytes;
    Pow256Values();
    LastNumber(m, 4, e.executionPrice);
    assert m[32..] == m[32..36];
    var r := PartByte(m, 31, e.printable, ToBytes(4, e.executionPrice));
    r := PartNumber(m, 23, 8, e.matchNumber, r);
    r := PartNumber(m, 19, 4, e.executedShares, r);
    r := PartNumber(m, 11, 8, e.orderReference, r);
    HeaderLayout(m, e);
    assert r == Body(e);
  }

  lemma OrderCancelLayout(m: seq<Byte>, e: ItchEvent)
    requires e.OrderCancel? && |m| == 23 && m[0] == 88
    ensures m == Message(e) <==> DecodeEvent(m) == e
  {
    hide From, ToBytes, BigEndian, Message, HeaderBytes;
    Pow256Values();
    LastNumber(m, 4, e.canceledShares);
    assert m[19..] == m[19..23];
    var r := PartNumber(m, 11, 8, e.orderReference, ToBytes(4, e.canceledShares));
    HeaderLayout(m, e);
    assert r == Body(e);
  }

  lemma OrderDeleteLayout(m: seq<Byte>, e: ItchEvent)
    requires e.OrderDelete? && |m| == 19 && m[0] == 68
    ensures m == Message(e) <==> DecodeEvent(m) == e
  {
    hide From, ToBytes, BigEndian, Message, HeaderBytes;
    Pow256Values();
    LastNumber(m, 8, e.orderReference);
    assert m[11..] == m[11..19];
    HeaderLayout(m, e);
  }

  lemma OrderReplaceLayout(m: seq<Byte>, e: ItchEvent)
    requires e.OrderReplace? && |m| == 35 && m[0] == 85
    ensures m == Message(e) <==> DecodeEvent(m) == e
  {
    hide From, ToBytes, BigEndian, Message, HeaderBytes;
    Pow256Values();
    LastNumber(m, 4, e.price);
    assert m[31..] == m[31..35];
    var r := PartNumber(m, 27, 4, e.shares, ToBytes(4, e.price));
    r := PartNumber(m, 19, 8, e.newReference, r);
    r := PartNumber(m, 11, 8, e.originalReference, r);
    HeaderLayout(m, e);
    assert r == Body(e);
  }

  lemma TradeLayout(m: seq<Byte>, e: ItchEvent)
    requires e.Trade? && |m| == 44 && m[0] == 80 && ValidSide(m[19])
    ensures m == Message(e) <==> DecodeEvent(m) == e
  {
    hide From, ToBytes, BigEndian, Message, HeaderBytes;
    Pow256Values();
    LastNumber(m, 8, e.matchNumber);
    assert m[36..] == m[36..44];
    var r := PartNumber(m, 32, 4, e.price, ToBytes(8, e.matchNumber));
    r := Part(m, 24, e.stock, r);
    r := PartNumber(m, 20, 4, e.shares, r);
    r := PartByte(m, 19, SideByte(e.side), r);
    r := PartNumber(m, 11, 8, e.orderReference, r);
    HeaderLayout(m, e);
    assert r == Body(e);
  }

  lemma CrossTradeLayout(m: seq<Byte>, e: ItchEvent)
    requires e.CrossTrade? && |m| == 40 && m[0] == 81
    ensures m == Message(e) <==> DecodeEvent(m) == e
  {
    hide From, ToBytes, BigEndian, Message, HeaderBytes;
    Pow256Values();
    LastByte(m, e.crossType);
    var r := PartNumber(m, 31, 8, e.matchNumber, [e.crossType]);
    r := PartNumber(m, 27, 4, e.crossPrice, r);
    r := Part(m, 19, e.stock, r);
    r := PartNumber(m, 11, 8, e.crossShares, r);
    HeaderLayout(m, e);
    assert r == Body(e);
  }

  lemma BrokenTradeLayout(m: seq<Byte>, e: ItchEvent)
    requires e.BrokenTrade? && |m| == 19 && m[0] == 66
    ensures m == Message(e) <==> DecodeEvent(m) == e
  {
    hide From, ToBytes, BigEndian, Message, HeaderBytes;
    Pow256Values();
    LastNumber(m, 8, e.matchNumber);
    assert m[11..] == m[11..19];
    HeaderLayout(m, e);
  }

  lemma NetOrderImbalanceLayout(m: seq<Byte>, e: ItchEvent)
    requires e.NetOrderImbalance? && |m| == 50 && m[0] == 73
    ensures m == Message(e) <==> DecodeEvent(m) == e
  {
    hide From, ToBytes, BigEndian, Message, HeaderBytes;
    Pow256Values();
    LastByte(m, e.priceVariation);
    var r := PartByte(m, 48, e.crossType, [e.priceVariation]);
    r := PartNumber(m, 44, 4, e.referencePrice, r);
    r := PartNumber(m, 40, 4, e.nearPrice, r);
    r := PartNumber(m, 36, 4, e.farPrice, r);
    r := Part(m, 28, e.stock, r);
    r := PartByte(m, 27, e.imbalanceDirection, r);
    r := PartNumber(m, 19, 8, e.imbalanceShares, r);
    r := PartNumber(m, 11, 8, e.pairedShares, r);
    HeaderLayout(m, e);
    assert r == Body(e);
  }

  /** The length the decoder demands is the length of the encoding, and the side byte is where it looks for it. */
  lemma MessageShape(e: ItchEvent)
    requires !e.SkippedMessage?
    ensures var m := Message(e);
      && |m| >= 12 && m[0] == TypeByte(e) && MessageLength(m[0]) == Some(|m|)
      && (m[0] in {65, 70, 80} ==> ValidSide(m[19]))
  {
    hide Body;
    BodyLength(e);
    if e.AddOrder? || e.AddAttributedOrder? || e.Trade? {
      SideInBody(e);
      assert Message(e)[19] == Body(e)[8];
    }
  }

  lemma BodyLength(e: ItchEvent)
    requires !e.SkippedMessage?
    ensures MessageLength(TypeByte(e)) == Some(11 + |Body(e)|) && |Body(e)| > 0
    ensures TypeByte(e) in {65, 70, 80} <==> e.AddOrder? || e.AddAttributedOrder? || e.Trade?
  {
    hide ToBytes;
  }

  lemma SideInBody(e: ItchEvent)
    requires e.AddOrder? || e.AddAttributedOrder? || e.Trade?
    ensures |Body(e)| > 8 && Body(e)[8] == SideByte(e.side)
  {
    hide ToBytes;
  }

  /** For a message of a modelled type with the right length and side byte: it decodes to `e` exactly when it
      is the encoding of `e`. */
  lemma MessageIsLossless(m: seq<Byte>, e: ItchEvent)
    requires !e.SkippedMessage? && |m| > 0 && m[0] == TypeByte(e) && MessageLength(m[0]) == Some(|m|)
    requires m[0] in {65, 70, 80} ==> ValidSide(m[19])
    ensures m == Message(e) <==> DecodeEvent(m) == e
  {
    hide Message, DecodeEvent, Body;
    match e
    case SystemEvent(_, _) => SystemEventLayout(m, e);
    case StockDirectory(_, _, _, _, _, _, _, _, _, _, _, _, _, _, _) => StockDirectoryLayout(m, e);
    case TradingAction(_, _, _, _, _) => TradingActionLayout(m, e);
    case AddOrder(_, _, _, _, _, _) => AddOrderLayout(m, e);
    case AddAttributedOrder(_, _, _, _, _, _, _) => AddAttributedOrderLayout(m, e);
    case OrderExecuted(_, _, _, _) => OrderExecutedLayout(m, e);
    case OrderExecutedWithPrice(_, _, _, _, _, _) => OrderExecutedWithPriceLayout(m, e);
    case OrderCancel(_, _, _) => OrderCancelLayout(m, e);
    case OrderDelete(_, _) => OrderDeleteLayout(m, e);
    case OrderReplace(_, _, _, _, _) => OrderReplaceLayout(m, e);
    case Trade(_, _, _, _, _, _, _) => TradeLayout(m, e);
    case CrossTrade(_, _, _, _, _, _) => CrossTradeLayout(m, e);
    case BrokenTrade(_, _) => BrokenTradeLayout(m, e);
    case NetOrderImbalance(_, _, _, _, _, _, _, _, _, _) => NetOrderImbalanceLayout(m, e);
  }

  // ---- frames ----

  /** A length prefix and as many bytes as it says. */
  predicate IsFrame(f: seq<Byte>) {
    |f| >= FRAME_PREFIX_BYTES && |f| == FRAME_PREFIX_BYTES + Read2(f, 0)
  }

  lemma EncodeIsFrame(e: ItchEvent)
    requires !e.SkippedMessage?
    ensures IsFrame(Encode(e)) && Encode(e)[2..] == Message(e) && |Message(e)| > 0
  {
    hide Message, ToBytes, BigEndian;
    MessageShape(e);
    ShortLengths(Message(e)[0]);
    var m := Message(e);
    var f := Encode(e);
    Pow256Values();
    BytesOfNumber(2, |m|);
    assert f[0..2] == ToBytes(2, |m|);
  }

  lemma ShortLengths(messageType: Byte)
    ensures MessageLength(messageType).Some? ==> 12 <= MessageLength(messageType).value <= 50
  {
  }

  /** What follows the frame does not matter, and nothing less than the frame is enough. */
  lemma FrameDecides(f: seq<Byte>, rest: seq<Byte>, k: nat)
    requires IsFrame(f)
    ensures !DecodeNext(f).NeedMoreData? && DecodeNext(f + rest) == DecodeNext(f)
    ensures k < |f| ==> DecodeNext((f + rest)[..k]) == NeedMoreData
  {
    hide DecodeEvent, MessageLength, BigEndian;
    var input := f + rest;
    assert input[0..2] == f[0..2];
    assert input[2..|f|] == f[2..|f|];
    if 2 <= k < |f| {
      assert input[..k][0..2] == f[0..2];
    }
  }

  /** The type of a message says which event it decodes to. */
  lemma TypeOfEvent(m: seq<Byte>)
    requires |m| > 0 && (MessageLength(m[0]).Some? ==> |m| == MessageLength(m[0]).value)
    ensures DecodeEvent(m).SkippedMessage? <==> MessageLength(m[0]).None?
    ensures !DecodeEvent(m).SkippedMessage? ==> TypeByte(DecodeEvent(m)) == m[0]
  {
    hide Read2, Read4, Read6, Read8, ReadHeader;
  }

  /** Decoding the encoding of an event, with anything behind it, gives the event and its frame's length. */
  lemma DecodeOfEncode(e: ItchEvent, rest: seq<Byte>)
    requires !e.SkippedMessage?
    ensures DecodeNext(Encode(e) + rest) == Complete(e, |Encode(e)|)
  {
    hide Message, Encode, BigEndian, DecodeEvent;
    EncodeIsFrame(e);
    MessageShape(e);
    MessageIsLossless(Message(e), e);
    FrameDecides(Encode(e), rest, 0);
    assert Encode(e)[2..|Encode(e)|] == Message(e);
  }

  /** Encoding a decoded event gives back the bytes that were consumed. */
  lemma EncodeOfDecode(input: seq<Byte>)
    requires DecodeNext(input).Complete? && !DecodeNext(input).event.SkippedMessage?
    ensures var r := DecodeNext(input); r.bytesConsumed <= |input| && Encode(r.event) == input[..r.bytesConsumed]
  {
    hide Message, BigEndian, DecodeEvent;
    var n := Read2(input, 0);
    var m := input[2..2 + n];
    TypeOfEvent(m);
    var e := DecodeEvent(m);
    MessageIsLossless(m, e);
    Pow256Values();
    NumberOfBytes(input[0..2]);
    assert input[..2 + n] == input[0..2] + m;
  }

  /** The decoder answers with an event of a modelled type exactly when the input starts with the encoding
      of that event; so no two inputs with different frames decode to the same event. */
  lemma DecodesExactly(input: seq<Byte>, e: ItchEvent)
    requires !e.SkippedMessage?
    ensures (DecodeNext(input).Complete? && DecodeNext(input).event == e) <==> Encode(e) <= input
  {
    hide Encode, DecodeNext;
    if Encode(e) <= input {
      DecodeOfEncode(e, input[|Encode(e)|..]);
      assert input == Encode(e) + input[|Encode(e)|..];
    }
    if DecodeNext(input).Complete? && DecodeNext(input).event == e {
      EncodeOfDecode(input);
    }
  }

  /** A frame of a modelled type is refused exactly when it is the encoding of no event. */
  lemma RefusedExactly(f: seq<Byte>)
    requires IsFrame(f) && |f| > 2 && MessageLength(f[2]).Some?
    ensures DecodeNext(f).Error? <==> forall e: ItchEvent :: !e.SkippedMessage? ==> Encode(e) != f
  {
    hide Encode, DecodeEvent, BigEndian;
    FrameDecides(f, [], 0);
    if DecodeNext(f).Error? {
      forall e: ItchEvent | !e.SkippedMessage?
        ensures Encode(e) != f
      {
        DecodesExactly(f, e);
        assert f <= f;
      }
    } else {
      var m := f[2..|f|];
      assert DecodeNext(f) == DecodeMessage(m, |f|);
      TypeOfEvent(m);
      EncodeOfDecode(f);
      var e := DecodeNext(f).event;
      assert !e.SkippedMessage? && Encode(e) == f;
    }
  }
}
