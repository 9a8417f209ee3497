/** What the typed items of an envelope say of the items that were sent
    (apps/server/src/ingest/envelope.rs, apps/server/src/ingest/parser.rs), and what is refused. */
module EnvelopeKinds {
  import opened Wrappers
  import opened Envelope
  import opened EnvelopeRoundTrip
  import NulEscapes

  // ----- one item ----------------------------------------------------------------------

  /** The type an item of this kind was sent under. */
  function TypeOf(kind: ItemKind): string {
    match kind
    case Event(_) => "event"
    case Transaction(_) => "transaction"
    case Session(_) => "session"
    case Sessions(_) => "sessions"
    case Log(_) => "log"
    case Span(_) | SpanV2Batch(_) => "span"
    case CheckIn(_) => "check_in"
    case Feedback(_) => "feedback"
    case UserReport(_) => "user_report"
    case Attachment(_, _, _, _) => "attachment"
    case Other(t, _) => t
  }

  /** The types whose payload is not looked at. */
  const OPAQUE_TYPES: set<string> :=
    {"event", "transaction", "log", "span", "check_in", "feedback", "user_report", "attachment"}

  /** Where a kind says more than its type: which spans are batches, which sessions could not be
      read, and what an attachment keeps of its headers. */
  predicate Tells(codec: Codec, h: ItemHeaders, kind: ItemKind) {
    match kind
    case SpanV2Batch(_) => h.contentType == Some("application/vnd.sentry.items.span.v2+json")
    case Span(_) => h.contentType != Some("application/vnd.sentry.items.span.v2+json")
    case Session(payload) => codec.isSession(payload)
    case Sessions(payload) => codec.isSessions(payload)
    case Attachment(filename, contentType, attachmentType, _) =>
      filename == h.filename && contentType == h.contentType && attachmentType == h.attachmentType
    case Other(t, payload) =>
      && t !in OPAQUE_TYPES
      && (t == "session" ==> !codec.isSession(payload))
      && (t == "sessions" ==> !codec.isSessions(payload))
    case _ => true
  }

  /** The item's type and payload can be told from its kind, and only one kind fits them. */
  lemma KindExactly(codec: Codec, h: ItemHeaders, payload: seq<byte>, kind: ItemKind)
    ensures kind == KindOf(codec, h, payload)
       <==> TypeOf(kind) == h.itemType && kind.payload == payload && Tells(codec, h, kind)
  {
  }

  /** What a parsed item is of the one that was sent: attachments byte for byte, and of every other
      payload what the rewriting leaves, which means what was sent without its NULs. */
  ghost predicate Renders(codec: Codec, h: ItemHeaders, sent: seq<byte>, kind: ItemKind) {
    && TypeOf(kind) == h.itemType && Tells(codec, h, kind)
    && (h.itemType == "attachment" ==> kind.payload == sent)
    && (h.itemType != "attachment" ==> kind.payload == NulEscapes.Strip(sent) && Means(sent, kind.payload))
  }

  ghost predicate Means(sent: seq<byte>, payload: seq<byte>) {
    var units := NulEscapes.Decode(sent);
    units.Some? ==> NulEscapes.Decode(payload) == Some(NulEscapes.WithoutNul(units.value))
  }

  lemma KindRenders(codec: Codec, h: ItemHeaders, sent: seq<byte>)
    ensures Renders(codec, h, sent, KindOf(codec, h, Cleaned(h, sent)))
  {
    hide KindOf, Tells, TypeOf, NulEscapes.Strip, NulEscapes.Decode;
    KindExactly(codec, h, Cleaned(h, sent), KindOf(codec, h, Cleaned(h, sent)));
    if NulEscapes.Decode(sent).Some? { NulEscapes.StripCommutesWithDecoding(sent); }
  }

  // ----- all the items -----------------------------------------------------------------

  ghost predicate AllRender(codec: Codec, items: seq<Item>, kinds: seq<ItemKind>) {
    && |kinds| == |items|
    && forall k | 0 <= k < |items| :: Renders(codec, items[k].0, items[k].1, kinds[k])
  }

  lemma {:induction false} KindsRender(codec: Codec, items: seq<Item>)
    ensures AllRender(codec, items, Kinds(codec, items))
    decreases |items|
  {
    hide KindOf, Cleaned, Renders;
    if items != [] {
      KindRenders(codec, items[0].0, items[0].1);
      KindsRender(codec, items[1..]);
      var kinds := Kinds(codec, items);
      forall k | 0 <= k < |items| ensures Renders(codec, items[k].0, items[k].1, kinds[k]) {
        if k > 0 { assert items[k] == items[1..][k - 1] && kinds[k] == Kinds(codec, items[1..])[k - 1]; }
      }
    }
  }

  /** Item by item, an envelope that parses is what stands in the buffer. */
  lemma ParsedRenders(codec: Codec, data: seq<byte>, pos: nat)
    requires pos <= |data| && Parsed(codec, data, pos).Ok?
    ensures var (headers, next) := HeadersAt(codec, data, pos).value;
      var items := ItemsFrom(codec, data, next, 0).value;
      && InBuffer(data, items) && Parsed(codec, data, pos).value.headers == headers
      && AllRender(codec, Views(data, items), Parsed(codec, data, pos).value.items)
  {
    hide HeadersAt, ItemsFrom, Kinds, AllRender;
    var (headers, next) := HeadersAt(codec, data, pos).value;
    RangesInOrder(codec, data, next, 0);
    KindsRender(codec, Views(data, ItemsFrom(codec, data, next, 0).value));
  }

  /** And every envelope with room for its items comes back as it was printed, item by item. */
  lemma PrintedComesBack(codec: Codec, headers: EnvelopeHeaders, items: seq<Item>, gaps: seq<nat>)
    requires codec.Lawful() && AllFit(codec, items)
    requires |codec.printEnvelope(headers)| <= MAX_HEADER_SIZE
    requires |gaps| == |items| + 1 && Roomy(|items|, gaps[|items|])
    ensures var r := Parsed(codec, Printed(codec, headers, items, gaps), 0);
      r.Ok? && r.value.headers == headers && AllRender(codec, items, r.value.items)
  {
    hide Codec.Lawful, Parsed, Printed, Kinds, AllFit, AllRender;
    ParsingUndoesPrinting(codec, headers, items, gaps);
    KindsRender(codec, items);
  }

  // ----- what is refused ---------------------------------------------------------------

  /** More than `maxSize` bytes follow before a line ends. */
  predicate LongLine(data: seq<byte>, pos: nat, maxSize: nat) {
    pos + maxSize < |data| && forall i | pos <= i <= pos + maxSize :: data[i] != NEWLINE
  }

  /** A line of the buffer and where the next begins: it ends at its newline or with the buffer. */
  predicate IsLine(data: seq<byte>, pos: nat, line: seq<byte>, next: nat) {
    && OneLine(line)
    && (if next == pos + |line| + 1 then next <= |data| && data[pos..next] == line + [NEWLINE]
        else next == pos + |line| == |data| && data[pos..next] == line)
  }

  lemma {:induction false} LineEndIs(data: seq<byte>, pos: nat)
    requires pos <= |data|
    ensures var e := LineEnd(data, pos);
      && (forall i | pos <= i < e :: data[i] != NEWLINE)
      && (e < |data| ==> data[e] == NEWLINE)
    decreases |data| - pos
  {
    if pos < |data| && data[pos] != NEWLINE { LineEndIs(data, pos + 1); }
  }

  lemma LineEndUnique(data: seq<byte>, pos: nat, line: seq<byte>, next: nat)
    requires pos <= |data| && IsLine(data, pos, line, next)
    ensures LineEnd(data, pos) == pos + |line| && line == data[pos..pos + |line|]
  {
    LineEndIs(data, pos);
    var end := pos + |line|;
    assert end <= |data|;
    assert line == data[pos..end] by {
      if next != end { assert line == data[pos..next][..|line|]; }
    }
    forall i | pos <= i < end ensures data[i] != NEWLINE { assert data[i] == line[i - pos]; }
    if next != end { assert data[end] == data[pos..next][|line|]; }
  }

  /** A line is read exactly when it is one of the buffer's, and no longer than it may be; the
      only error is that it is too long. */
  lemma LineExactly(data: seq<byte>, pos: nat, maxSize: nat, line: seq<byte>, next: nat)
    requires pos <= |data|
    ensures LineAt(data, pos, maxSize) == Ok((line, next)) <==> IsLine(data, pos, line, next) && |line| <= maxSize
    ensures LineAt(data, pos, maxSize).Err? <==> LongLine(data, pos, maxSize)
    ensures LineAt(data, pos, maxSize).Err? ==> LineAt(data, pos, maxSize) == Err(PayloadTooLarge)
  {
    hide LineEnd;
    LineEndIs(data, pos);
    if IsLine(data, pos, line, next) { LineEndUnique(data, pos, line, next); }
    var e := LineEnd(data, pos);
    if LineAt(data, pos, maxSize) == Ok((line, next)) {
      if e < |data| { assert data[pos..next] == line + [NEWLINE]; }
    }
  }

  /** The largest payload of each type, in bytes: four mebibytes for an event, the whole
      decompressed envelope for an attachment and one mebibyte otherwise. */
  lemma Limits(itemType: string)
    ensures MaxSize("event") == 4 * 1024 * 1024 && MaxSize("attachment") == 100 * 1024 * 1024
    ensures itemType != "event" && itemType != "attachment" ==> MaxSize(itemType) == 1024 * 1024
    ensures MAX_HEADER_SIZE == 8 * 1024 && MAX_ITEM_COUNT == 1024 && NEWLINE as int == '\n' as int
  {
  }

  /** A payload is refused for its size when it declares too much or its line is too long, and as
      malformed when it declares more than there is. */
  lemma PayloadRefusedExactly(data: seq<byte>, pos: nat, h: ItemHeaders)
    requires pos <= |data|
    ensures var max := MaxSize(h.itemType);
      && (PayloadAt(data, pos, h) == Err(PayloadTooLarge)
          <==> if h.length.Some? then h.length.value > max else LongLine(data, pos, max))
      && (PayloadAt(data, pos, h) == Err(Validation)
          <==> h.length.Some? && h.length.value <= max && pos + h.length.value > |data|)
  {
    hide LineAt, LongLine, IsLine;
    LineExactly(data, pos, MaxSize(h.itemType), [], 0);
  }

  /** Headers are refused for a line that is too long, and as malformed when they are not
      headers; an empty line is no envelope header, and before an item it is only a gap. */
  lemma HeadersRefusedExactly(codec: Codec, data: seq<byte>, pos: nat, line: seq<byte>, next: nat)
    requires pos <= |data| && IsLine(data, pos, line, next)
    ensures HeadersAt(codec, data, pos) == Err(PayloadTooLarge) <==> |line| > MAX_HEADER_SIZE
    ensures HeadersAt(codec, data, pos) == Err(Validation)
       <==> |line| <= MAX_HEADER_SIZE && (line == [] || codec.readEnvelope(line) == None)
  {
    hide LineAt, IsLine, LongLine;
    LineExactly(data, pos, MAX_HEADER_SIZE, line, next);
    if |line| > MAX_HEADER_SIZE { LongWhole(data, pos, MAX_HEADER_SIZE, line, next); }
  }

  lemma ItemRefusedExactly(codec: Codec, data: seq<byte>, pos: nat, line: seq<byte>, next: nat)
    requires pos < |data| && IsLine(data, pos, line, next) && next <= |data|
    ensures |line| > MAX_HEADER_SIZE ==> ItemAt(codec, data, pos) == Err(PayloadTooLarge)
    ensures |line| <= MAX_HEADER_SIZE && line != [] && codec.readItem(line) == None
        ==> ItemAt(codec, data, pos) == Err(Validation)
    ensures ItemAt(codec, data, pos).Err?
       <==> |line| > MAX_HEADER_SIZE
            || (line != [] && (codec.readItem(line) == None || PayloadAt(data, next, codec.readItem(line).value).Err?))
    ensures ItemAt(codec, data, pos) == Ok((None, next)) <==> line == []
  {
    hide LineAt, IsLine, PayloadAt, LongLine;
    LineExactly(data, pos, MAX_HEADER_SIZE, line, next);
    if |line| > MAX_HEADER_SIZE { LongWhole(data, pos, MAX_HEADER_SIZE, line, next); }
  }

  lemma LongWhole(data: seq<byte>, pos: nat, maxSize: nat, line: seq<byte>, next: nat)
    requires pos <= |data| && IsLine(data, pos, line, next) && |line| > maxSize
    ensures LongLine(data, pos, maxSize)
  {
    LineEndUnique(data, pos, line, next);
    LineEndIs(data, pos);
  }
}
