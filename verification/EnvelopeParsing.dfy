/** The cursor parser (apps/server/src/ingest/parser.rs), step by step. */
module EnvelopeParsing {
  import opened Wrappers
  import opened Envelope
  import EnvelopeKinds
  import NulEscapes

  lemma {:induction false} LineEndSkips(data: seq<byte>, from: nat, pos: nat)
    requires from <= pos <= |data|
    requires forall i | from <= i < pos :: data[i] != NEWLINE
    ensures LineEnd(data, from) == LineEnd(data, pos)
    decreases pos - from
  {
    if from < pos { LineEndSkips(data, from + 1, pos); }
  }

  /** `items` have been read already. */
  function After(items: seq<RawItem>, rest: Result<seq<RawItem>, Error>): Result<seq<RawItem>, Error> {
    match rest
    case Err(e) => Err(e)
    case Ok(more) => Ok(items + more)
  }

  lemma AfterOneMore(codec: Codec, data: seq<byte>, pos: nat, items: seq<RawItem>, item: RawItem, next: nat)
    requires pos < |data| && |items| < MAX_ITEM_COUNT && pos < next <= |data|
    requires ItemAt(codec, data, pos) == Ok((Some(item), next))
    ensures After(items, ItemsFrom(codec, data, pos, |items|))
         == After(items + [item], ItemsFrom(codec, data, next, |items| + 1))
  {
    hide ItemAt;
    var rest := ItemsFrom(codec, data, next, |items| + 1);
    if rest.Ok? { Regroup(items, [item], rest.value); }
  }

  lemma {:induction false} OneMoreKind(codec: Codec, data: seq<byte>, items: seq<RawItem>, item: RawItem)
    requires InBuffer(data, items) && item.start <= item.end <= |data|
    ensures InBuffer(data, items + [item])
    ensures Kinds(codec, Views(data, items + [item]))
         == Kinds(codec, Views(data, items))
            + [KindOf(codec, item.headers, Cleaned(item.headers, data[item.start..item.end]))]
    decreases |items|
  {
    hide KindOf, Cleaned;
    var more := items + [item];
    if items == [] {
      assert more[0] == item && more[1..] == [];
      var view := (item.headers, data[item.start..item.end]);
      assert Views(data, more) == [view];
      assert [view][1..] == Views(data, []);
      assert Kinds(codec, [view]) == [KindOf(codec, view.0, Cleaned(view.0, view.1))];
    } else {
      forall k | 0 <= k < |items[1..]| ensures items[1..][k].start <= items[1..][k].end <= |data| {
        assert items[1..][k] == items[k + 1];
      }
      OneMoreKind(codec, data, items[1..], item);
      assert more[0] == items[0] && more[1..] == items[1..] + [item];
      KindsOfFirst(codec, data, items);
      KindsOfFirst(codec, data, more);
    }
  }

  lemma KindsOfFirst(codec: Codec, data: seq<byte>, items: seq<RawItem>)
    requires InBuffer(data, items) && items != []
    ensures InBuffer(data, items[1..])
    ensures var first := items[0];
      Kinds(codec, Views(data, items))
        == [KindOf(codec, first.headers, Cleaned(first.headers, data[first.start..first.end]))]
           + Kinds(codec, Views(data, items[1..]))
  {
    hide KindOf, Cleaned;
    forall k | 0 <= k < |items[1..]| ensures items[1..][k].start <= items[1..][k].end <= |data| {
      assert items[1..][k] == items[k + 1];
    }
    var view := (items[0].headers, data[items[0].start..items[0].end]);
    assert Views(data, items)[0] == view && Views(data, items)[1..] == Views(data, items[1..]);
  }

  class EnvelopeParser {
    const codec: Codec
    const data: seq<byte>
    var position: nat

    predicate Valid()
      reads this
    {
      position <= |data|
    }

    constructor (codec: Codec, data: seq<byte>)
      ensures Valid() && this.codec == codec && this.data == data && position == 0
    {
      this.codec := codec;
      this.data := data;
      position := 0;
    }

    method ReadLine(maxSize: nat) returns (r: Result<seq<byte>, Error>)
      requires Valid()
      modifies this
      ensures Valid()
      ensures match LineAt(data, old(position), maxSize)
        case Err(e) => r == Err(e) && position == old(position)
        case Ok((line, next)) => r == Ok(line) && position == next
    {
      var start := position;
      var end := position;
      while end < |data| && data[end] != NEWLINE
        invariant start <= end <= |data| && end - start <= maxSize
        invariant forall i | start <= i < end :: data[i] != NEWLINE
        decreases |data| - end
      {
        end := end + 1;
        if end - start > maxSize {
          LineEndSkips(data, start, end);
          return Err(PayloadTooLarge);
        }
      }
      LineEndSkips(data, start, end);
      position := if end < |data| then end + 1 else end;
      return Ok(data[start..end]);
    }

    method ReadBytes(length: nat) returns (r: Result<seq<byte>, Error>)
      requires Valid()
      modifies this
      ensures Valid()
      ensures r.Ok? <==> old(position) + length <= |data|
      ensures r.Ok? ==> position == old(position) + length && r.value == data[old(position)..position]
      ensures r.Err? ==> r.error == Validation && position == old(position)
    {
      if position + length > |data| {
        return Err(Validation);
      }
      var bytes := data[position..position + length];
      position := position + length;
      return Ok(bytes);
    }

    method SkipNewline()
      requires Valid()
      modifies this
      ensures Valid()
      ensures position == old(position)
        + if old(position) < |data| && data[old(position)] == NEWLINE then 1 else 0
    {
      if position < |data| && data[position] == NEWLINE {
        position := position + 1;
      }
    }

    /** The payload that follows item headers. */
    method ReadPayload(headers: ItemHeaders) returns (r: Result<seq<byte>, Error>)
      requires Valid()
      modifies this
      ensures Valid()
      ensures match PayloadAt(data, old(position), headers)
        case Err(e) => r == Err(e)
        case Ok((item, next)) => r == Ok(data[item.start..item.end]) && position == next
    {
      var maxSize := match headers.itemType {
        case "event" => MAX_RAW_EVENT_SIZE
        case "attachment" => MAX_DECOMPRESSED_SIZE
        case _ => MAX_ITEM_SIZE
      };
      match headers.length {
        case Some(length) =>
          if length > maxSize {
            return Err(PayloadTooLarge);
          }
          r := ReadBytes(length);
          if r.Ok? { SkipNewline(); }
        case None =>
          r := ReadLine(maxSize);
      }
    }

    method ParseEnvelopeHeaders() returns (r: Result<EnvelopeHeaders, Error>)
      requires Valid()
      modifies this
      ensures Valid()
      ensures match HeadersAt(codec, data, old(position))
        case Err(e) => r == Err(e)
        case Ok((headers, next)) => r == Ok(headers) && position == next
    {
      var line := ReadLine(MAX_HEADER_SIZE);
      if line.Err? {
        return Err(line.error);
      }
      if line.value == [] {
        return Err(Validation);
      }
      match codec.readEnvelope(line.value) {
        case None => return Err(Validation);
        case Some(headers) => return Ok(headers);
      }
    }

    method ParseItem() returns (r: Result<Option<ItemKind>, Error>)
      requires Valid() && position < |data|
      modifies this
      ensures Valid()
      ensures match ItemAt(codec, data, old(position))
        case Err(e) => r == Err(e)
        case Ok((None, next)) => r == Ok(None) && position == next
        case Ok((Some(item), next)) =>
          && r == Ok(Some(KindOf(codec, item.headers, Cleaned(item.headers, data[item.start..item.end]))))
          && position == next
          && EnvelopeKinds.Renders(codec, item.headers, data[item.start..item.end], r.value.value)
    {
      hide KindOf, LineAt, PayloadAt, NulEscapes.Strip, EnvelopeKinds.Renders;
      var line := ReadLine(MAX_HEADER_SIZE);
      if line.Err? {
        return Err(line.error);
      }
      if line.value == [] {
        return Ok(None);
      }
      match codec.readItem(line.value) {
        case None => return Err(Validation);
        case Some(headers) =>
          var payload := ReadPayload(headers);
          if payload.Err? {
            return Err(payload.error);
          }
          var clean := payload.value;
          if headers.itemType != "attachment" {
            var stripped := NulEscapes.StripNulEscapes(clean);
            clean := match stripped
              case Borrowed(_) => clean
              case Owned(bytes) => bytes;
          }
          EnvelopeKinds.KindRenders(codec, headers, payload.value);
          return Ok(Some(KindOf(codec, headers, clean)));
      }
    }

    method Parse() returns (r: Result<ParsedEnvelope, Error>)
      requires Valid()
      modifies this
      ensures Valid()
      ensures r == Parsed(codec, data, old(position))
      ensures r.Ok? ==> position == |data| && |r.value.items| <= MAX_ITEM_COUNT
    {
      hide HeadersAt, ItemAt, KindOf, Kinds, Views, InBuffer, Cleaned;
      var headers := ParseEnvelopeHeaders();
      if headers.Err? {
        return Err(headers.error);
      }

      var items := [];
      ghost var start := position;
      ghost var raw: seq<RawItem> := [];
      NothingYet(codec, data, ItemsFrom(codec, data, start, 0));
      while position < |data|
        invariant Valid()
        invariant |items| == |raw| <= MAX_ITEM_COUNT && InBuffer(data, raw)
        invariant items == Kinds(codec, Views(data, raw))
        invariant ItemsFrom(codec, data, start, 0) == After(raw, ItemsFrom(codec, data, position, |raw|))
        decreases |data| - position
      {
        if |items| >= MAX_ITEM_COUNT {
          return Err(PayloadTooLarge);
        }
        ghost var before := position;
        var item := ParseItem();
        if item.Err? {
          return Err(item.error);
        }
        if item.value.Some? {
          items := items + [item.value.value];
          ghost var one := ItemAt(codec, data, before).value.0.value;
          OneMoreKind(codec, data, raw, one);
          AfterOneMore(codec, data, before, raw, one, position);
          raw := raw + [one];
        }
      }
      assert raw + [] == raw;
      return Ok(ParsedEnvelope(headers.value, items));
    }
  }

  lemma NothingYet(codec: Codec, data: seq<byte>, rest: Result<seq<RawItem>, Error>)
    ensures After([], rest) == rest
    ensures InBuffer(data, []) && Kinds(codec, Views(data, [])) == []
  {
    if rest.Ok? { assert [] + rest.value == rest.value; }
  }
}
