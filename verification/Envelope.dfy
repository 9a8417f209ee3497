/** The Sentry envelope format: what a buffer parses to (apps/server/src/ingest/parser.rs,
    apps/server/src/ingest/envelope.rs). JSON is an abstract codec. */
module Envelope {
  import opened Wrappers
  import NulEscapes

  const NEWLINE: byte := 10

  const MAX_HEADER_SIZE: nat := 8192
  const MAX_ITEM_SIZE: nat := 1048576
  const MAX_RAW_EVENT_SIZE: nat := 4194304
  const MAX_DECOMPRESSED_SIZE: nat := 104857600
  const MAX_ITEM_COUNT: nat := 1024

  datatype Error = PayloadTooLarge | Validation

  datatype EnvelopeHeaders = EnvelopeHeaders(eventId: Option<string>, dsn: Option<string>, sentAt: Option<string>,
                                             sdk: Option<(Option<string>, Option<string>)>)

  datatype ItemHeaders = ItemHeaders(itemType: string, length: Option<nat>, contentType: Option<string>,
                                     filename: Option<string>, attachmentType: Option<string>)

  /** Reading and printing the JSON lines, and recognising the two typed payloads. */
  datatype Codec = Codec(readEnvelope: seq<byte> -> Option<EnvelopeHeaders>,
                         printEnvelope: EnvelopeHeaders -> seq<byte>,
                         readItem: seq<byte> -> Option<ItemHeaders>, printItem: ItemHeaders -> seq<byte>,
                         isSession: seq<byte> -> bool, isSessions: seq<byte> -> bool)
  {
    /** Printed headers read back, are never empty, and stay on one line. */
    ghost predicate Lawful() {
      && (forall h :: readEnvelope(printEnvelope(h)) == Some(h) && OneLine(printEnvelope(h)) && printEnvelope(h) != [])
      && (forall h :: readItem(printItem(h)) == Some(h) && OneLine(printItem(h)) && printItem(h) != [])
    }
  }

  predicate OneLine(s: seq<byte>) {
    forall i | 0 <= i < |s| :: s[i] != NEWLINE
  }

  datatype ItemKind =
    | Event(payload: seq<byte>) | Transaction(payload: seq<byte>)
    | Session(payload: seq<byte>) | Sessions(payload: seq<byte>)
    | Log(payload: seq<byte>) | Span(payload: seq<byte>) | SpanV2Batch(payload: seq<byte>)
    | CheckIn(payload: seq<byte>) | Feedback(payload: seq<byte>) | UserReport(payload: seq<byte>)
    | Attachment(filename: Option<string>, contentType: Option<string>, attachmentType: Option<string>,
                 payload: seq<byte>)
    | Other(itemType: string, payload: seq<byte>)

  const SPAN_V2_CONTENT_TYPE := "application/vnd.sentry.items.span.v2+json"

  /** The typed form of an item. */
  function KindOf(codec: Codec, h: ItemHeaders, payload: seq<byte>): ItemKind {
    if h.itemType == "event" then Event(payload)
    else if h.itemType == "transaction" then Transaction(payload)
    else if h.itemType == "log" then Log(payload)
    else if h.itemType == "check_in" then CheckIn(payload)
    else if h.itemType == "feedback" then Feedback(payload)
    else if h.itemType == "user_report" then UserReport(payload)
    else if h.itemType == "attachment" then Attachment(h.filename, h.contentType, h.attachmentType, payload)
    else if h.itemType == "span" then
      if h.contentType == Some(SPAN_V2_CONTENT_TYPE) then SpanV2Batch(payload) else Span(payload)
    else if h.itemType == "session" then
      if codec.isSession(payload) then Session(payload) else Other("session", payload)
    else if h.itemType == "sessions" then
      if codec.isSessions(payload) then Sessions(payload) else Other("sessions", payload)
    else Other(h.itemType, payload)
  }

  function MaxSize(itemType: string): nat {
    if itemType == "event" then MAX_RAW_EVENT_SIZE
    else if itemType == "attachment" then MAX_DECOMPRESSED_SIZE
    else MAX_ITEM_SIZE
  }

  // ----- what a buffer parses to -------------------------------------------------------

  function LineEnd(data: seq<byte>, pos: nat): (e: nat)
    requires pos <= |data|
    ensures pos <= e <= |data|
    decreases |data| - pos
  {
    if pos == |data| || data[pos] == NEWLINE then pos else LineEnd(data, pos + 1)
  }

  /** One line, and where the next begins. */
  function LineAt(data: seq<byte>, pos: nat, maxSize: nat): (r: Result<(seq<byte>, nat), Error>)
    requires pos <= |data|
    ensures r.Ok? ==> pos <= r.value.1 <= |data| && (pos < |data| ==> pos < r.value.1)
    ensures r.Ok? ==> |r.value.0| <= maxSize && pos + |r.value.0| <= r.value.1
    ensures r.Ok? ==> r.value.0 == data[pos..pos + |r.value.0|]
  {
    var e := LineEnd(data, pos);
    if e - pos > maxSize then Err(PayloadTooLarge)
    else Ok((data[pos..e], if e < |data| then e + 1 else e))
  }

  /** An item: its headers, and the range of the buffer its raw payload takes up. */
  datatype RawItem = RawItem(headers: ItemHeaders, start: nat, end: nat)

  function PayloadAt(data: seq<byte>, pos: nat, h: ItemHeaders): (r: Result<(RawItem, nat), Error>)
    requires pos <= |data|
    ensures r.Ok? ==> var (item, next) := r.value;
      && pos == item.start <= item.end <= next <= |data|
      && item.end - item.start <= MaxSize(h.itemType) && item.headers == h
  {
    match h.length
    case Some(length) =>
      if length > MaxSize(h.itemType) then Err(PayloadTooLarge)
      else if pos + length > |data| then Err(Validation)
      else
        var end := pos + length;
        Ok((RawItem(h, pos, end), if end < |data| && data[end] == NEWLINE then end + 1 else end))
    case None =>
      match LineAt(data, pos, MaxSize(h.itemType))
      case Err(e) => Err(e)
      case Ok((line, next)) => Ok((RawItem(h, pos, pos + |line|), next))
  }

  /** The item at `pos`, or none for a blank line, and where the next begins. */
  function ItemAt(codec: Codec, data: seq<byte>, pos: nat): (r: Result<(Option<RawItem>, nat), Error>)
    requires pos < |data|
    ensures r.Ok? ==> pos < r.value.1 <= |data|
    ensures r.Ok? && r.value.0.Some? ==> var item := r.value.0.value;
      pos < item.start <= item.end <= r.value.1 && item.end - item.start <= MaxSize(item.headers.itemType)
  {
    match LineAt(data, pos, MAX_HEADER_SIZE)
    case Err(e) => Err(e)
    case Ok((line, next)) =>
      if line == [] then Ok((None, next))
      else match codec.readItem(line)
        case None => Err(Validation)
        case Some(h) =>
          match PayloadAt(data, next, h)
          case Err(e) => Err(e)
          case Ok((item, after)) => Ok((Some(item), after))
  }

  /** The items from `pos` to the end of the buffer, `count` having been read before. */
  function ItemsFrom(codec: Codec, data: seq<byte>, pos: nat, count: nat): Result<seq<RawItem>, Error>
    requires pos <= |data|
    decreases |data| - pos
  {
    if pos == |data| then Ok([])
    else if count >= MAX_ITEM_COUNT then Err(PayloadTooLarge)
    else match ItemAt(codec, data, pos)
      case Err(e) => Err(e)
      case Ok((None, next)) => ItemsFrom(codec, data, next, count)
      case Ok((Some(item), next)) =>
        match ItemsFrom(codec, data, next, count + 1)
        case Err(e) => Err(e)
        case Ok(items) => Ok([item] + items)
  }

  function HeadersAt(codec: Codec, data: seq<byte>, pos: nat): (r: Result<(EnvelopeHeaders, nat), Error>)
    requires pos <= |data|
    ensures r.Ok? ==> pos <= r.value.1 <= |data|
  {
    match LineAt(data, pos, MAX_HEADER_SIZE)
    case Err(e) => Err(e)
    case Ok((line, next)) =>
      if line == [] then Err(Validation)
      else match codec.readEnvelope(line)
        case None => Err(Validation)
        case Some(h) => Ok((h, next))
  }

  /** Attachments are raw bytes; every other payload is JSON and loses its NUL escapes. */
  function Cleaned(h: ItemHeaders, payload: seq<byte>): seq<byte> {
    if h.itemType == "attachment" then payload else NulEscapes.Strip(payload)
  }

  ghost predicate InBuffer(data: seq<byte>, items: seq<RawItem>) {
    forall k | 0 <= k < |items| :: items[k].start <= items[k].end <= |data|
  }

  function Kinds(codec: Codec, items: seq<(ItemHeaders, seq<byte>)>): seq<ItemKind> {
    if items == [] then []
    else [KindOf(codec, items[0].0, Cleaned(items[0].0, items[0].1))] + Kinds(codec, items[1..])
  }

  /** The items of a buffer as values: headers and raw payload. */
  function Views(data: seq<byte>, items: seq<RawItem>): seq<(ItemHeaders, seq<byte>)>
    requires InBuffer(data, items)
  {
    if items == [] then []
    else [(items[0].headers, data[items[0].start..items[0].end])] + Views(data, items[1..])
  }

  datatype ParsedEnvelope = ParsedEnvelope(headers: EnvelopeHeaders, items: seq<ItemKind>)

  function Parsed(codec: Codec, data: seq<byte>, pos: nat): Result<ParsedEnvelope, Error>
    requires pos <= |data|
  {
    match HeadersAt(codec, data, pos)
    case Err(e) => Err(e)
    case Ok((headers, next)) =>
      match ItemsFrom(codec, data, next, 0)
      case Err(e) => Err(e)
      case Ok(items) =>
        RangesInOrder(codec, data, next, 0);
        Ok(ParsedEnvelope(headers, Kinds(codec, Views(data, items))))
  }

  // ----- ranges ------------------------------------------------------------------------

  /** Raw payloads one after another from `pos`, none over its type's limit. */
  ghost predicate InOrder(items: seq<RawItem>, pos: nat, limit: nat) {
    if items == [] then pos <= limit
    else
      && pos < items[0].start <= items[0].end
      && items[0].end - items[0].start <= MaxSize(items[0].headers.itemType)
      && InOrder(items[1..], items[0].end, limit)
  }

  function TotalLength(items: seq<RawItem>): int {
    if items == [] then 0 else items[0].end - items[0].start + TotalLength(items[1..])
  }

  lemma InOrderEarlier(items: seq<RawItem>, pos: nat, from: nat, limit: nat)
    requires InOrder(items, from, limit) && pos <= from
    ensures InOrder(items, pos, limit)
  {
  }

  lemma {:induction false} InOrderInBuffer(items: seq<RawItem>, pos: nat, data: seq<byte>)
    requires InOrder(items, pos, |data|)
    ensures InBuffer(data, items) && pos <= |data|
    ensures TotalLength(items) + |items| <= |data| - pos
    decreases |items|
  {
    if items != [] {
      InOrderInBuffer(items[1..], items[0].end, data);
      forall k | 0 <= k < |items| ensures items[k].start <= items[k].end <= |data| {
        if k > 0 { assert items[k] == items[1..][k - 1]; }
      }
    }
  }

  /** On success the raw payloads are disjoint, in order, within their limits, and few; with
      their headers they take up no more than the buffer. */
  lemma {:induction false} RangesInOrder(codec: Codec, data: seq<byte>, pos: nat, count: nat)
    requires pos <= |data| && count <= MAX_ITEM_COUNT
    requires ItemsFrom(codec, data, pos, count).Ok?
    ensures var items := ItemsFrom(codec, data, pos, count).value;
      && InOrder(items, pos, |data|) && InBuffer(data, items)
      && count + |items| <= MAX_ITEM_COUNT
      && TotalLength(items) + |items| <= |data| - pos
    decreases |data| - pos
  {
    var items := ItemsFrom(codec, data, pos, count).value;
    if pos < |data| {
      var (item, next) := ItemAt(codec, data, pos).value;
      if item.None? {
        RangesInOrder(codec, data, next, count);
        InOrderEarlier(items, pos, next, |data|);
      } else {
        RangesInOrder(codec, data, next, count + 1);
        assert items[1..] == ItemsFrom(codec, data, next, count + 1).value;
        InOrderEarlier(items[1..], item.value.end, next, |data|);
      }
    }
    InOrderInBuffer(items, pos, data);
  }
}
