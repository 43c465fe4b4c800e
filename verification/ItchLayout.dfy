/** The native ITCH 5.0 frames, byte by byte: which bytes of a message each field is, as sums of bytes and
    with the characters of the format as numbers, and what the decoder answers to every string of bytes. */
module ItchLayout {
  import opened Common
  import opened Itch

  // ---- numbers, the most significant byte first ----

  function Num8(m: seq<Byte>, at: nat): nat
    requires at < |m|
  {
    m[at]
  }

  function Num16(m: seq<Byte>, at: nat): nat
    requires at + 2 <= |m|
  {
    0x100 * Num8(m, at) + Num8(m, at + 1)
  }

  function Num32(m: seq<Byte>, at: nat): nat
    requires at + 4 <= |m|
  {
    0x100_0000 * Num8(m, at) + 0x1_0000 * Num8(m, at + 1) + 0x100 * Num8(m, at + 2) + Num8(m, at + 3)
  }

  function Num48(m: seq<Byte>, at: nat): nat
    requires at + 6 <= |m|
  {
    0x100_0000_0000 * Num8(m, at) + 0x1_0000_0000 * Num8(m, at + 1) + 0x100_0000 * Num8(m, at + 2)
    + 0x1_0000 * Num8(m, at + 3) + 0x100 * Num8(m, at + 4) + Num8(m, at + 5)
  }

  function Num64(m: seq<Byte>, at: nat): nat
    requires at + 8 <= |m|
  {
    0x100_0000_0000_0000 * Num8(m, at) + 0x1_0000_0000_0000 * Num8(m, at + 1) + 0x100_0000_0000 * Num8(m, at + 2)
    + 0x1_0000_0000 * Num8(m, at + 3) + 0x100_0000 * Num8(m, at + 4) + 0x1_0000 * Num8(m, at + 5) + 0x100 * Num8(m, at + 6)
    + Num8(m, at + 7)
  }

  // ---- the layouts ----

  predicate HeaderIs(m: seq<Byte>, h: Header) {
    |m| >= 11 && h.stockLocate == Num16(m, 1) && h.trackingNumber == Num16(m, 3) && h.timestamp == Num48(m, 5)
  }

  /** 'B' buys and 'S' sells; there is no third side. */
  predicate SideIs(side: Side, byte: Byte) {
    (side == Buy && byte == 66) || (side == Sell && byte == 83)
  }

  /** The fields of the messages that change a book. */
  predicate OrderFields(m: seq<Byte>, e: ItchEvent)
    requires |m| > 0
  {
    if e.AddOrder? then
      && |m| == 36 && m[0] == 65 && e.orderReference == Num64(m, 11) && SideIs(e.side, m[19])
      && e.shares == Num32(m, 20) && e.stock == m[24..32] && e.price == Num32(m, 32)
    else if e.AddAttributedOrder? then
      && |m| == 40 && m[0] == 70 && e.orderReference == Num64(m, 11) && SideIs(e.side, m[19])
      && e.shares == Num32(m, 20) && e.stock == m[24..32] && e.price == Num32(m, 32)
      && e.attribution == m[36..40]
    else if e.OrderExecuted? then
      && |m| == 31 && m[0] == 69 && e.orderReference == Num64(m, 11) && e.executedShares == Num32(m, 19)
      && e.matchNumber == Num64(m, 23)
    else if e.OrderExecutedWithPrice? then
      && |m| == 36 && m[0] == 67 && e.orderReference == Num64(m, 11) && e.executedShares == Num32(m, 19)
      && e.matchNumber == Num64(m, 23) && e.printable == m[31] && e.executionPrice == Num32(m, 32)
    else if e.OrderCancel? then
      && |m| == 23 && m[0] == 88 && e.orderReference == Num64(m, 11) && e.canceledShares == Num32(m, 19)
    else if e.OrderDelete? then
      && |m| == 19 && m[0] == 68 && e.orderReference == Num64(m, 11)
    else if e.OrderReplace? then
      && |m| == 35 && m[0] == 85 && e.originalReference == Num64(m, 11) && e.newReference == Num64(m, 19)
      && e.shares == Num32(m, 27) && e.price == Num32(m, 31)
    else false
  }

  /** The fields of the other modelled messages. */
  predicate OtherFields(m: seq<Byte>, e: ItchEvent)
    requires |m| > 0
  {
    if e.SystemEvent? then
      && |m| == 12 && m[0] == 83 && e.eventCode == m[11]
    else if e.StockDirectory? then
      && |m| == 39 && m[0] == 82 && e.stock == m[11..19] && e.marketCategory == m[19]
      && e.financialStatus == m[20] && e.roundLotSize == Num32(m, 21) && e.roundLotsOnly == m[25]
      && e.issueClassification == m[26] && e.issueSubType == m[27..29] && e.authenticity == m[29]
      && e.shortSaleThreshold == m[30] && e.ipoFlag == m[31] && e.luldTier == m[32] && e.etpFlag == m[33]
      && e.etpLeverage == Num32(m, 34) && e.inverseIndicator == m[38]
    else if e.TradingAction? then
      && |m| == 25 && m[0] == 72 && e.stock == m[11..19] && e.tradingState == m[19] && e.reserved == m[20]
      && e.reason == m[21..25]
    else if e.Trade? then
      && |m| == 44 && m[0] == 80 && e.orderReference == Num64(m, 11) && SideIs(e.side, m[19])
      && e.shares == Num32(m, 20) && e.stock == m[24..32] && e.price == Num32(m, 32)
      && e.matchNumber == Num64(m, 36)
    else if e.CrossTrade? then
      && |m| == 40 && m[0] == 81 && e.crossShares == Num64(m, 11) && e.stock == m[19..27]
      && e.crossPrice == Num32(m, 27) && e.matchNumber == Num64(m, 31) && e.crossType == m[39]
    else if e.BrokenTrade? then
      && |m| == 19 && m[0] == 66 && e.matchNumber == Num64(m, 11)
    else if e.NetOrderImbalance? then
      && |m| == 50 && m[0] == 73 && e.pairedShares == Num64(m, 11) && e.imbalanceShares == Num64(m, 19)
      && e.imbalanceDirection == m[27] && e.stock == m[28..36] && e.farPrice == Num32(m, 36)
      && e.nearPrice == Num32(m, 40) && e.referencePrice == Num32(m, 44) && e.crossType == m[48]
      && e.priceVariation == m[49]
    else false
  }

  /** A message of any other type is skipped, with its header when it is long enough to have one. */
  predicate Skips(m: seq<Byte>, e: ItchEvent)
    requires |m| > 0
  {
    && e.SkippedMessage? && e.messageType == m[0]
    && m[0] !in {65, 66, 67, 68, 69, 70, 72, 73, 80, 81, 82, 83, 85, 88}
    && if |m| >= 11 then e.skippedHeader.Some? && HeaderIs(m, e.skippedHeader.value) else e.skippedHeader.None?
  }

  /** `e` is what the message `m` says. */
  predicate Says(m: seq<Byte>, e: ItchEvent)
    requires |m| > 0
  {
    || Skips(m, e)
    || (!e.SkippedMessage? && HeaderIs(m, e.header) && (OrderFields(m, e) || OtherFields(m, e)))
  }

  /** A message of a modelled type has the length of its layout. */
  predicate Fits(m: seq<Byte>)
    requires |m| > 0
  {
    && (m[0] == 83 ==> |m| == 12)
    && (m[0] in {66, 68} ==> |m| == 19)
    && (m[0] == 88 ==> |m| == 23)
    && (m[0] == 72 ==> |m| == 25)
    && (m[0] == 69 ==> |m| == 31)
    && (m[0] == 85 ==> |m| == 35)
    && (m[0] in {65, 67} ==> |m| == 36)
    && (m[0] == 82 ==> |m| == 39)
    && (m[0] in {70, 81} ==> |m| == 40)
    && (m[0] == 80 ==> |m| == 44)
    && (m[0] == 73 ==> |m| == 50)
  }

  /** A message with a side has one of the two. */
  predicate Sided(m: seq<Byte>)
    requires |m| > 0 && Fits(m)
  {
    m[0] in {65, 70, 80} ==> m[19] == 66 || m[19] == 83
  }

  /** What the decoder is to answer to a string of bytes. */
  ghost predicate AnswerIs(input: seq<Byte>, r: DecodeResult) {
    if |input| < 2 then r.NeedMoreData?
    else
      var n := Num16(input, 0);
      if n == 0 then r == Error(InvalidFrameLength, 0)
      else if |input| < 2 + n then r.NeedMoreData?
      else
        var m := input[2..2 + n];
        if !Fits(m) then r == Error(UnexpectedMessageLength, 2)
        else if !Sided(m) then r == Error(InvalidSide, 21)
        else r.Complete? && r.bytesConsumed == 2 + n && Says(m, r.event)
  }

  // ---- the decoder reads them ----

  lemma Two(b: seq<Byte>)
    requires |b| == 2
    ensures BigEndian(b) == Num16(b, 0)
  {
    assert b[..1][..0] == [] && BigEndian(b[..1]) == b[0];
  }

  /** Two more bytes. */
  lemma TwoMore(b: seq<Byte>)
    requires |b| >= 2
    ensures BigEndian(b) == 0x1_0000 * BigEndian(b[..|b| - 2]) + Num16(b, |b| - 2)
  {
    var c := b[..|b| - 1];
    assert c[..|c| - 1] == b[..|b| - 2];
  }

  lemma Four(b: seq<Byte>)
    requires |b| == 4
    ensures BigEndian(b) == Num32(b, 0)
  {
    hide BigEndian;
    Two(b[..2]);
    TwoMore(b);
  }

  lemma Six(b: seq<Byte>)
    requires |b| == 6
    ensures BigEndian(b) == Num48(b, 0)
  {
    hide BigEndian;
    Four(b[..4]);
    TwoMore(b);
  }

  lemma Eight(b: seq<Byte>)
    requires |b| == 8
    ensures BigEndian(b) == Num64(b, 0)
  {
    hide BigEndian;
    Six(b[..6]);
    TwoMore(b);
  }

  lemma ReadIs(m: seq<Byte>, at: nat)
    ensures at + 2 <= |m| ==> Read2(m, at) == Num16(m, at)
    ensures at + 4 <= |m| ==> Read4(m, at) == Num32(m, at)
    ensures at + 6 <= |m| ==> Read6(m, at) == Num48(m, at)
    ensures at + 8 <= |m| ==> Read8(m, at) == Num64(m, at)
  {
    hide BigEndian;
    if at + 2 <= |m| { Two(m[at..at + 2]); }
    if at + 4 <= |m| { Four(m[at..at + 4]); }
    if at + 6 <= |m| { Six(m[at..at + 6]); }
    if at + 8 <= |m| { Eight(m[at..at + 8]); }
  }

  lemma HeaderRead(m: seq<Byte>)
    requires |m| >= 11
    ensures HeaderIs(m, ReadHeader(m))
  {
    hide Read2, Read6, Num16, Num48;
    ReadIs(m, 1);
    ReadIs(m, 3);
    ReadIs(m, 5);
  }

  /** The table of lengths is that of the layouts. */
  lemma LengthsAre(m: seq<Byte>)
    requires |m| > 0
    ensures LengthOk(m) <==> Fits(m)
    ensures MessageLength(m[0]).Some? <==> m[0] in {65, 66, 67, 68, 69, 70, 72, 73, 80, 81, 82, 83, 85, 88}
  {
  }

  lemma OrderEventSays(m: seq<Byte>)
    requires LengthOk(m) && Fits(m) && Sided(m) && IsOrderType(m[0])
    ensures var e := DecodeOrderEvent(m); !e.SkippedMessage? && HeaderIs(m, e.header) && OrderFields(m, e)
  {
    hide Read2, Read4, Read6, Read8, ReadHeader, Num16, Num32, Num48, Num64, HeaderIs;
    HeaderRead(m);
    ReadIs(m, 11);
    ReadIs(m, 19);
    ReadIs(m, 20);
    ReadIs(m, 23);
    ReadIs(m, 27);
    ReadIs(m, 31);
    ReadIs(m, 32);
  }

  lemma OtherEventSays(m: seq<Byte>)
    requires LengthOk(m) && Fits(m) && Sided(m) && !IsOrderType(m[0])
    ensures var e := DecodeOtherEvent(m);
      if e.SkippedMessage? then Skips(m, e) else HeaderIs(m, e.header) && OtherFields(m, e)
  {
    hide Read2, Read4, Read6, Read8, ReadHeader, Num16, Num32, Num48, Num64, HeaderIs;
    if |m| >= 11 {
      HeaderRead(m);
    }
    ReadIs(m, 11);
    ReadIs(m, 19);
    ReadIs(m, 20);
    ReadIs(m, 21);
    ReadIs(m, 27);
    ReadIs(m, 31);
    ReadIs(m, 32);
    ReadIs(m, 34);
    ReadIs(m, 36);
    ReadIs(m, 40);
    ReadIs(m, 44);
  }

  /** A message of the right length with a valid side decodes to the event whose fields are its bytes. */
  lemma EventSays(m: seq<Byte>)
    requires LengthOk(m) && Fits(m) && Sided(m)
    ensures Says(m, DecodeEvent(m))
  {
    hide DecodeOrderEvent, DecodeOtherEvent, OrderFields, OtherFields, Skips, HeaderIs;
    if IsOrderType(m[0]) {
      OrderEventSays(m);
    } else {
      OtherEventSays(m);
    }
  }

  /** What the decoder answers, for every string of bytes. */
  lemma DecodeMeans(input: seq<Byte>)
    ensures AnswerIs(input, DecodeNext(input))
  {
    hide Read2, Num16, DecodeEvent, MessageLength, Fits, Says, LengthOk;
    ReadIs(input, 0);
    if |input| >= 2 && 0 < Num16(input, 0) <= |input| - 2 {
      var m := input[2..2 + Num16(input, 0)];
      MessageMeans(m, 2 + Num16(input, 0));
    }
  }

  lemma MessageMeans(m: seq<Byte>, consumed: nat)
    requires |m| > 0
    ensures var r := DecodeMessage(m, consumed);
      if !Fits(m) then r == Error(UnexpectedMessageLength, 2)
      else if !Sided(m) then r == Error(InvalidSide, 21)
      else r.Complete? && r.bytesConsumed == consumed && Says(m, r.event)
  {
    hide MessageLength, DecodeEvent, Fits, Says;
    LengthsAre(m);
    if Fits(m) && Sided(m) {
      EventSays(m);
    }
  }

  /** A message says one thing only. */
  lemma SaysOne(m: seq<Byte>, e: ItchEvent, f: ItchEvent)
    requires |m| > 0 && Says(m, e) && Says(m, f)
    ensures e == f
  {
    hide OrderFields, OtherFields, Skips, HeaderIs;
    TypesOf(m, e);
    TypesOf(m, f);
    if e.SkippedMessage? {
      SkipsOne(m, e, f);
    } else {
      HeaderOne(m, e.header, f.header);
      OrderOne(m, e, f);
      OtherOne(m, e, f);
    }
  }

  lemma TypesOf(m: seq<Byte>, e: ItchEvent)
    requires |m| > 0
    ensures OrderFields(m, e) ==> m[0] in {65, 67, 68, 69, 70, 85, 88}
    ensures OtherFields(m, e) ==> m[0] in {66, 72, 73, 80, 81, 82, 83}
    ensures Skips(m, e) ==> e.SkippedMessage? && m[0] !in {65, 67, 68, 69, 70, 85, 88} && m[0] !in {66, 72, 73, 80, 81, 82, 83}
  {
    hide Num16, Num32, Num48, Num64;
  }

  lemma HeaderOne(m: seq<Byte>, h: Header, k: Header)
    requires HeaderIs(m, h) && HeaderIs(m, k)
    ensures h == k
  {
  }

  lemma SkipsOne(m: seq<Byte>, e: ItchEvent, f: ItchEvent)
    requires |m| > 0 && Skips(m, e) && Skips(m, f)
    ensures e == f
  {
  }

  lemma OrderOne(m: seq<Byte>, e: ItchEvent, f: ItchEvent)
    requires |m| > 0 && !e.SkippedMessage? && !f.SkippedMessage? && e.header == f.header
    ensures OrderFields(m, e) && OrderFields(m, f) ==> e == f
  {
    hide Num32, Num64;
  }

  lemma OtherOne(m: seq<Byte>, e: ItchEvent, f: ItchEvent)
    requires |m| > 0 && !e.SkippedMessage? && !f.SkippedMessage? && e.header == f.header
    ensures OtherFields(m, e) && OtherFields(m, f) ==> e == f
  {
    hide Num32, Num64;
  }
}
