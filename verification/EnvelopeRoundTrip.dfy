/** Printing an envelope (packages/benchmarks/src/envelope.rs) and parsing it back. */
module EnvelopeRoundTrip {
  import opened Wrappers
  import opened Envelope
  import NulEscapes

  /** An item to print: its headers and its raw payload. */
  type Item = (ItemHeaders, seq<byte>)

  function Newlines(n: nat): (r: seq<byte>)
    ensures |r| == n && forall i | 0 <= i < n :: r[i] == NEWLINE
  {
    seq(n, _ => NEWLINE)
  }

  function Line(s: seq<byte>): seq<byte> { s + [NEWLINE] }

  function PrintedItem(codec: Codec, item: Item): seq<byte> {
    Line(codec.printItem(item.0)) + Line(item.1)
  }

  /** The items printed one after another, with `gaps[k]` blank lines before item `k` and the
      last gap after them all. */
  function PrintedItems(codec: Codec, items: seq<Item>, gaps: seq<nat>): seq<byte>
    requires |gaps| == |items| + 1
  {
    if items == [] then Newlines(gaps[0])
    else Newlines(gaps[0]) + (PrintedItem(codec, items[0]) + PrintedItems(codec, items[1..], gaps[1..]))
  }

  function Printed(codec: Codec, headers: EnvelopeHeaders, items: seq<Item>, gaps: seq<nat>): seq<byte>
    requires |gaps| == |items| + 1
  {
    Line(codec.printEnvelope(headers)) + PrintedItems(codec, items, gaps)
  }

  function NoGaps(n: nat): (r: seq<nat>)
    ensures |r| == n + 1 && forall i | 0 <= i <= n :: r[i] == 0
  {
    seq(n + 1, _ => 0)
  }

  /** An item within its limits whose length is declared correctly, or left out of an item
      whose payload is a single line. */
  predicate Fits(codec: Codec, item: Item) {
    && |codec.printItem(item.0)| <= MAX_HEADER_SIZE
    && |item.1| <= MaxSize(item.0.itemType)
    && (match item.0.length
        case None => OneLine(item.1)
        case Some(n) => n == |item.1|)
  }

  predicate AllFit(codec: Codec, items: seq<Item>) {
    forall k | 0 <= k < |items| :: Fits(codec, items[k])
  }

  /** The count limit: a full envelope may not even be followed by a blank line. */
  predicate Roomy(items: nat, lastGap: nat) {
    items < MAX_ITEM_COUNT || (items == MAX_ITEM_COUNT && lastGap == 0)
  }

  // ----- one line, one item ------------------------------------------------------------

  lemma {:induction false} LineEndFound(data: seq<byte>, pos: nat, n: nat)
    requires pos + n < |data| && data[pos + n] == NEWLINE
    requires forall i | pos <= i < pos + n :: data[i] != NEWLINE
    ensures LineEnd(data, pos) == pos + n
    decreases n
  {
    if n > 0 { LineEndFound(data, pos + 1, n - 1); }
  }

  lemma PartAt(data: seq<byte>, pos: nat, a: seq<byte>, rest: seq<byte>)
    requires pos <= |data| && data[pos..] == a + rest
    ensures pos + |a| <= |data|
    ensures data[pos..pos + |a|] == a && data[pos + |a|..] == rest
    ensures forall i | 0 <= i < |a| :: data[pos + i] == a[i]
  {
    assert |data[pos..]| == |a| + |rest|;
    forall i | 0 <= i < |a| ensures data[pos + i] == a[i] {
      assert data[pos..][i] == (a + rest)[i];
    }
    assert data[pos + |a|..] == data[pos..][|a|..];
  }

  lemma LineAtPrinted(data: seq<byte>, pos: nat, s: seq<byte>, rest: seq<byte>, maxSize: nat)
    requires pos <= |data| && data[pos..] == Line(s) + rest
    requires OneLine(s) && |s| <= maxSize
    ensures LineAt(data, pos, maxSize) == Ok((s, pos + |s| + 1))
    ensures pos + |s| + 1 <= |data| && data[pos + |s| + 1..] == rest
  {
    PartAt(data, pos, Line(s), rest);
    assert data[pos + |s|] == Line(s)[|s|];
    forall i | pos <= i < pos + |s| ensures data[i] != NEWLINE {
      assert data[pos + (i - pos)] == Line(s)[i - pos];
    }
    LineEndFound(data, pos, |s|);
    assert data[pos..pos + |s|] == s by {
      assert data[pos..pos + |s|] == data[pos..pos + |Line(s)|][..|s|];
    }
  }

  lemma PayloadAtPrinted(codec: Codec, data: seq<byte>, pos: nat, item: Item, rest: seq<byte>)
    requires pos <= |data| && data[pos..] == Line(item.1) + rest
    requires Fits(codec, item)
    ensures PayloadAt(data, pos, item.0) == Ok((RawItem(item.0, pos, pos + |item.1|), pos + |item.1| + 1))
    ensures pos + |item.1| + 1 <= |data| && data[pos..pos + |item.1|] == item.1
    ensures data[pos + |item.1| + 1..] == rest
  {
    PartAt(data, pos, Line(item.1), rest);
    if item.0.length.None? {
      LineAtPrinted(data, pos, item.1, rest, MaxSize(item.0.itemType));
    } else {
      assert data[pos + |item.1|] == Line(item.1)[|item.1|];
      assert data[pos..pos + |item.1|] == data[pos..pos + |Line(item.1)|][..|item.1|];
    }
  }

  lemma ItemAtPrinted(codec: Codec, data: seq<byte>, pos: nat, item: Item, rest: seq<byte>)
    returns (start: nat, next: nat)
    requires codec.Lawful() && Fits(codec, item)
    requires pos <= |data| && data[pos..] == PrintedItem(codec, item) + rest
    ensures pos < start <= start + |item.1| < next <= |data|
    ensures ItemAt(codec, data, pos) == Ok((Some(RawItem(item.0, start, start + |item.1|)), next))
    ensures data[start..start + |item.1|] == item.1 && data[next..] == rest
  {
    hide LineAt, PayloadAt;
    var header := codec.printItem(item.0);
    assert codec.readItem(header) == Some(item.0) && OneLine(header) && header != [];
    Regroup(Line(header), Line(item.1), rest);
    LineAtPrinted(data, pos, header, Line(item.1) + rest, MAX_HEADER_SIZE);
    start := pos + |header| + 1;
    PayloadAtPrinted(codec, data, start, item, rest);
    next := start + |item.1| + 1;
  }

  // ----- all the items -----------------------------------------------------------------

  lemma BlankAt(codec: Codec, data: seq<byte>, pos: nat, n: nat, rest: seq<byte>)
    requires pos <= |data| && n > 0 && data[pos..] == Newlines(n) + rest
    ensures pos < |data| && ItemAt(codec, data, pos) == Ok((None, pos + 1))
    ensures data[pos + 1..] == Newlines(n - 1) + rest
  {
    PartAt(data, pos, Newlines(n), rest);
    assert data[pos + 0] == NEWLINE;
    LineEndFound(data, pos, 0);
    assert data[pos + 1..] == data[pos..][1..];
    assert Newlines(n - 1) == Newlines(n)[1..];
  }

  lemma PrintedFewerGaps(codec: Codec, items: seq<Item>, gaps: seq<nat>)
    returns (rest: seq<byte>)
    requires |gaps| == |items| + 1 && gaps[0] > 0
    ensures PrintedItems(codec, items, gaps) == Newlines(gaps[0]) + rest
    ensures PrintedItems(codec, items, gaps[0 := gaps[0] - 1]) == Newlines(gaps[0] - 1) + rest
  {
    var fewer := gaps[0 := gaps[0] - 1];
    if items == [] {
      rest := [];
    } else {
      assert fewer[1..] == gaps[1..];
      rest := PrintedItem(codec, items[0]) + PrintedItems(codec, items[1..], gaps[1..]);
    }
  }

  /** What parsing the printed items gives. */
  ghost predicate ReadsBack(codec: Codec, data: seq<byte>, pos: nat, count: nat, items: seq<Item>, lastGap: nat)
    requires pos <= |data|
  {
    var r := ItemsFrom(codec, data, pos, count);
    if Roomy(count + |items|, lastGap) then r.Ok? && InBuffer(data, r.value) && Views(data, r.value) == items
    else r == Err(PayloadTooLarge)
  }

  lemma ViewsCons(data: seq<byte>, first: RawItem, items: seq<RawItem>)
    requires first.start <= first.end <= |data| && InBuffer(data, items)
    ensures InBuffer(data, [first] + items)
    ensures Views(data, [first] + items) == [(first.headers, data[first.start..first.end])] + Views(data, items)
  {
    assert ([first] + items)[1..] == items;
  }

  lemma SkipBlank(codec: Codec, data: seq<byte>, pos: nat, count: nat, items: seq<Item>, lastGap: nat,
                  lessGap: nat)
    requires pos < |data| && count < MAX_ITEM_COUNT
    requires ItemAt(codec, data, pos) == Ok((None, pos + 1))
    requires ReadsBack(codec, data, pos + 1, count, items, lessGap) && (items == [] || lessGap == lastGap)
    ensures ReadsBack(codec, data, pos, count, items, lastGap)
  {
    hide ItemAt, Views, InBuffer;
  }

  lemma ReadOneMore(codec: Codec, data: seq<byte>, pos: nat, count: nat, raw: RawItem, next: nat,
                    items: seq<Item>, lastGap: nat)
    requires pos < |data| && count < MAX_ITEM_COUNT && pos < next <= |data|
    requires ItemAt(codec, data, pos) == Ok((Some(raw), next))
    requires raw.start <= raw.end <= |data|
    requires ReadsBack(codec, data, next, count + 1, items, lastGap)
    ensures ReadsBack(codec, data, pos, count, [(raw.headers, data[raw.start..raw.end])] + items, lastGap)
  {
    hide ItemAt, Views, InBuffer;
    var r := ItemsFrom(codec, data, next, count + 1);
    assert |[(raw.headers, data[raw.start..raw.end])] + items| == 1 + |items|;
    if r.Ok? {
      ViewsCons(data, raw, r.value);
    }
  }

  lemma ReadAtEnd(codec: Codec, data: seq<byte>, count: nat)
    requires count <= MAX_ITEM_COUNT
    ensures ReadsBack(codec, data, |data|, count, [], 0)
  {
  }

  lemma {:induction false} ItemsReadBack(codec: Codec, data: seq<byte>, pos: nat, count: nat, items: seq<Item>,
                                         gaps: seq<nat>)
    requires codec.Lawful() && AllFit(codec, items) && count <= MAX_ITEM_COUNT
    requires |gaps| == |items| + 1
    requires pos <= |data| && data[pos..] == PrintedItems(codec, items, gaps)
    ensures ReadsBack(codec, data, pos, count, items, gaps[|items|])
    decreases |items|, gaps[0]
  {
    hide Codec.Lawful, ItemAt, Views, Fits;
    if gaps[0] > 0 {
      var rest := PrintedFewerGaps(codec, items, gaps);
      BlankAt(codec, data, pos, gaps[0], rest);
      if count < MAX_ITEM_COUNT {
        var fewer := gaps[0 := gaps[0] - 1];
        ItemsReadBack(codec, data, pos + 1, count, items, fewer);
        SkipBlank(codec, data, pos, count, items, gaps[|items|], fewer[|items|]);
      }
    } else if items != [] {
      var rest := PrintedItems(codec, items[1..], gaps[1..]);
      assert Newlines(0) + (PrintedItem(codec, items[0]) + rest) == PrintedItem(codec, items[0]) + rest;
      var start, next := ItemAtPrinted(codec, data, pos, items[0], rest);
      if count < MAX_ITEM_COUNT {
        ItemsReadBack(codec, data, next, count + 1, items[1..], gaps[1..]);
        assert gaps[1..][|items[1..]|] == gaps[|items|];
        ReadOneMore(codec, data, pos, count, RawItem(items[0].0, start, start + |items[0].1|), next, items[1..],
                    gaps[|items|]);
        assert (items[0].0, items[0].1) == items[0];
        assert [items[0]] + items[1..] == items;
      } else {
        assert pos < |data| && !Roomy(count + |items|, gaps[|items|]);
      }
    } else {
      assert pos == |data|;
      ReadAtEnd(codec, data, count);
    }
  }

  // ----- whole envelopes ---------------------------------------------------------------

  lemma HeadersReadBack(codec: Codec, data: seq<byte>, headers: EnvelopeHeaders, rest: seq<byte>)
    returns (next: nat)
    requires codec.Lawful() && |codec.printEnvelope(headers)| <= MAX_HEADER_SIZE
    requires data == Line(codec.printEnvelope(headers)) + rest
    ensures HeadersAt(codec, data, 0) == Ok((headers, next))
    ensures next <= |data| && data[next..] == rest
  {
    hide LineAt;
    var line := codec.printEnvelope(headers);
    assert codec.readEnvelope(line) == Some(headers) && OneLine(line) && line != [];
    assert data[0..] == data;
    LineAtPrinted(data, 0, line, rest, MAX_HEADER_SIZE);
    next := |line| + 1;
  }

  /** Printing with any blank lines between the items, then parsing, gives back the headers
      and the items, and fails only by the count limit. */
  lemma ParsingUndoesPrinting(codec: Codec, headers: EnvelopeHeaders, items: seq<Item>, gaps: seq<nat>)
    requires codec.Lawful() && AllFit(codec, items)
    requires |codec.printEnvelope(headers)| <= MAX_HEADER_SIZE
    requires |gaps| == |items| + 1
    ensures Parsed(codec, Printed(codec, headers, items, gaps), 0)
         == if Roomy(|items|, gaps[|items|]) then Ok(ParsedEnvelope(headers, Kinds(codec, items)))
            else Err(PayloadTooLarge)
  {
    hide Codec.Lawful, HeadersAt, ItemsFrom, AllFit, PrintedItems, Views, Kinds;
    var data := Printed(codec, headers, items, gaps);
    var next := HeadersReadBack(codec, data, headers, PrintedItems(codec, items, gaps));
    ItemsReadBack(codec, data, next, 0, items, gaps);
  }

  /** Blank lines between the items of an envelope that is not full change nothing. */
  lemma BlankLinesChangeNothing(codec: Codec, headers: EnvelopeHeaders, items: seq<Item>, gaps: seq<nat>)
    requires codec.Lawful() && AllFit(codec, items)
    requires |codec.printEnvelope(headers)| <= MAX_HEADER_SIZE
    requires |gaps| == |items| + 1 && |items| < MAX_ITEM_COUNT
    ensures Parsed(codec, Printed(codec, headers, items, gaps), 0)
         == Parsed(codec, Printed(codec, headers, items, NoGaps(|items|)), 0)
  {
    ParsingUndoesPrinting(codec, headers, items, gaps);
    ParsingUndoesPrinting(codec, headers, items, NoGaps(|items|));
  }

  /** The typed items with their payloads as they were sent. */
  function Verbatim(codec: Codec, items: seq<Item>): seq<ItemKind> {
    seq(|items|, k requires 0 <= k < |items| => KindOf(codec, items[k].0, items[k].1))
  }

  /** Payloads survive byte for byte unless one that is not an attachment holds a NUL escape. */
  lemma {:induction false} PayloadsVerbatim(codec: Codec, items: seq<Item>)
    requires forall k | 0 <= k < |items| :: items[k].0.itemType == "attachment" || !NulEscapes.HasWindow(items[k].1)
    ensures Kinds(codec, items) == Verbatim(codec, items)
    decreases |items|
  {
    if items != [] {
      forall k | 0 <= k < |items[1..]|
        ensures items[1..][k].0.itemType == "attachment" || !NulEscapes.HasWindow(items[1..][k].1)
      {
        assert items[1..][k] == items[k + 1];
      }
      PayloadsVerbatim(codec, items[1..]);
      assert items[0].0.itemType == "attachment" || !NulEscapes.HasWindow(items[0].1);
      if items[0].0.itemType != "attachment" { NulEscapes.StripNothing(items[0].1); }
      assert [Verbatim(codec, items)[0]] + Verbatim(codec, items[1..]) == Verbatim(codec, items);
    }
  }

  // ----- the printer's loop ------------------------------------------------------------

  lemma {:induction false} PrintedSnoc(codec: Codec, items: seq<Item>, item: Item)
    ensures PrintedItems(codec, items + [item], NoGaps(|items| + 1))
         == PrintedItems(codec, items, NoGaps(|items|)) + PrintedItem(codec, item)
    decreases |items|
  {
    var more := items + [item];
    if items == [] {
      assert more[0] == item && more[1..] == [];
      assert NoGaps(1)[1..] == NoGaps(0);
      assert PrintedItem(codec, item) + [] == PrintedItem(codec, item);
    } else {
      PrintedSnoc(codec, items[1..], item);
      assert more[0] == items[0] && more[1..] == items[1..] + [item];
      assert NoGaps(|items| + 1)[1..] == NoGaps(|items|) && NoGaps(|items|)[1..] == NoGaps(|items| - 1);
      Regroup(PrintedItem(codec, items[0]), PrintedItems(codec, items[1..], NoGaps(|items| - 1)),
              PrintedItem(codec, item));
    }
  }

  /** The envelope as the printer assembles it: no blank lines, so that it parses back to what
      was printed whenever everything fits. */
  method BuildEnvelope(codec: Codec, headers: EnvelopeHeaders, items: seq<Item>) returns (envelope: seq<byte>)
    ensures envelope == Printed(codec, headers, items, NoGaps(|items|))
    ensures codec.Lawful() && AllFit(codec, items) && |items| <= MAX_ITEM_COUNT
         && |codec.printEnvelope(headers)| <= MAX_HEADER_SIZE
         ==> Parsed(codec, envelope, 0) == Ok(ParsedEnvelope(headers, Kinds(codec, items)))
  {
    hide Codec.Lawful, Parsed, AllFit, Kinds;
    envelope := [];
    envelope := envelope + codec.printEnvelope(headers);
    envelope := envelope + [NEWLINE];
    assert envelope == Line(codec.printEnvelope(headers));

    for i := 0 to |items|
      invariant envelope == Line(codec.printEnvelope(headers)) + PrintedItems(codec, items[..i], NoGaps(i))
    {
      var (itemHeader, payload) := items[i];
      ghost var before := envelope;
      envelope := envelope + codec.printItem(itemHeader);
      envelope := envelope + [NEWLINE];
      envelope := envelope + payload;
      envelope := envelope + [NEWLINE];
      Appended(codec, before, items[i]);
      PrintedSnoc(codec, items[..i], items[i]);
      assert items[..i] + [items[i]] == items[..i + 1];
      Regroup(Line(codec.printEnvelope(headers)), PrintedItems(codec, items[..i], NoGaps(i)),
              PrintedItem(codec, items[i]));
    }

    assert items[..|items|] == items;
    if codec.Lawful() && AllFit(codec, items) && |items| <= MAX_ITEM_COUNT
        && |codec.printEnvelope(headers)| <= MAX_HEADER_SIZE {
      ParsingUndoesPrinting(codec, headers, items, NoGaps(|items|));
    }
  }

  lemma Appended(codec: Codec, before: seq<byte>, item: Item)
    ensures (((before + codec.printItem(item.0)) + [NEWLINE]) + item.1) + [NEWLINE] == before + PrintedItem(codec, item)
  {
  }
}
