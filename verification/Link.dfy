/** The link end to end: what the device's transmit side commits is what a frame layer at the
    other end reports, record by record, framed and legacy in any order. */
module Link {
  import opened Bytes
  import opened Frames
  import opened FrameLayers
  import opened FrameStream
  import opened LegacyWriters
  import opened FrameSinks

  datatype Item = Framed(message: Message) | Printed(text: seq<byte>)
  {
    /** A legacy string is never empty: the print macro ends every line with a newline. */
    predicate Valid()
    {
      match this
      case Framed(m) => m.Valid()
      case Printed(text) => 0 < |text| < U32_LIMIT
    }

    function Wire(crc: Crc): seq<byte>
      requires Valid()
    {
      match this
      case Framed(m) => m.Wire(crc)
      case Printed(text) => Record(|text|, text)
    }
  }

  function AsPrinted(length: nat, s: seq<byte>): (r: seq<FeedResult>)
    ensures |r| == |s|
    ensures forall i :: 0 <= i < |s| ==> r[i] == Ok(LegacyPrintStringByte(length, s[i]))
  {
    seq(|s|, i requires 0 <= i < |s| => Ok(LegacyPrintStringByte(length, s[i])))
  }

  ghost predicate DeliversItem(os: seq<FeedResult>, item: Item)
  {
    match item
    case Framed(m) => DeliversMessage(os, m)
    case Printed(text) => Visible(os) == AsPrinted(|text|, text)
  }

  lemma {:induction false} TextStage(l: Layer, n: nat, s: seq<byte>, crc: Crc)
    requires l.Valid() && 0 < |s| <= n && l.state == LegacyPrintString(n, n - |s|)
    ensures Receive(l, s, crc).0 == l.(state := Preamble)
    ensures Visible(Receive(l, s, crc).1) == AsPrinted(n, s)
    decreases |s|
  {
    hide Visible;
    var o := Ok(LegacyPrintStringByte(n, s[0]));
    var l1 := Next(l, s[0], crc).0;
    ReceiveOne(l, l1, o, s, crc);
    if |s| == 1 {
      assert s[1..] == [];
      NothingVisible();
      assert AsPrinted(n, s) == [o];
    } else {
      TextStage(l1, n, s[1..], crc);
      assert AsPrinted(n, s) == [o] + AsPrinted(n, s[1..]);
    }
  }

  lemma NothingVisible()
    ensures Visible([]) == []
  {
  }

  lemma CommandStage(l: Layer, crc: Crc)
    requires Idle(l, crc)
    ensures Receive(l, PRINT_STRING, crc).0 == l.(preamble := PutStringLength([]))
    ensures Visible(Receive(l, PRINT_STRING, crc).1) == []
  {
    var l1, l2, l3 := l.(preamble := PutString1), l.(preamble := PutString2), l.(preamble := PutString3);
    FourSkips(l, l1, l2, l3, l.(preamble := PutStringLength([])), PRINT_STRING, crc);
  }

  lemma LegacyLengthStage(l: Layer, s: seq<byte>, crc: Crc)
    requires l.Valid() && l.state == Preamble && l.preamble == PutStringLength([]) && |s| == 4
    ensures Receive(l, s, crc).0 == l.(preamble := Initial, state := LegacyPrintString(FromLe32(s), 0))
    ensures Visible(Receive(l, s, crc).1) == []
  {
    var l1 := l.(preamble := PutStringLength([s[0]]));
    var l2 := l.(preamble := PutStringLength([s[0], s[1]]));
    var l3 := l.(preamble := PutStringLength([s[0], s[1], s[2]]));
    assert [] + [s[0]] == [s[0]] && [s[0]] + [s[1]] == [s[0], s[1]];
    assert [s[0], s[1]] + [s[2]] == [s[0], s[1], s[2]] && [s[0], s[1], s[2]] + [s[3]] == s;
    FourSkips(l, l1, l2, l3, l.(preamble := Initial, state := LegacyPrintString(FromLe32(s), 0)), s, crc);
  }

  lemma PrintedRoundTrip(l: Layer, text: seq<byte>, crc: Crc)
    requires Idle(l, crc) && 0 < |text| < U32_LIMIT
    ensures var (l', os) := Receive(l, Record(|text|, text), crc);
            Idle(l', crc) && Visible(os) == AsPrinted(|text|, text)
  {
    hide Next, Receive, Visible;
    var n, len := |text|, ToLe32(|text|);
    Le32RoundTrip(n);
    CommandStage(l, crc);
    var l1 := l.(preamble := PutStringLength([]));
    LegacyLengthStage(l1, len, crc);
    var l2 := l.(state := LegacyPrintString(n, 0));
    TextStage(l2, n, text, crc);
    ReceiveConcat(l, PRINT_STRING, len, crc);
    ReceiveConcat(l, PRINT_STRING + len, text, crc);
    var o1, o2, o3 := Receive(l, PRINT_STRING, crc).1, Receive(l1, len, crc).1, Receive(l2, text, crc).1;
    VisibleConcat(o1, o2);
    VisibleConcat(o1 + o2, o3);
  }

  function Wires(items: seq<Item>, crc: Crc): seq<seq<byte>>
    requires forall i :: 0 <= i < |items| ==> items[i].Valid()
  {
    seq(|items|, i requires 0 <= i < |items| => items[i].Wire(crc))
  }

  lemma WiresSnoc(items: seq<Item>, crc: Crc)
    requires |items| > 0 && forall i :: 0 <= i < |items| ==> items[i].Valid()
    ensures Wires(items, crc) == Wires(items[..|items| - 1], crc) + [items[|items| - 1].Wire(crc)]
  {
  }

  /** The results, cut at the record boundaries, deliver the items one by one. */
  ghost predicate DeliversItems(os: seq<FeedResult>, items: seq<Item>, crc: Crc)
    requires forall i :: 0 <= i < |items| ==> items[i].Valid()
    decreases |items|
  {
    if |items| == 0 then os == []
    else
      var init, last := items[..|items| - 1], items[|items| - 1];
      var n := |Flatten(Wires(init, crc))|;
      && n <= |os|
      && DeliversItems(os[..n], init, crc)
      && DeliversItem(os[n..], last)
  }

  /** End to end: the bytes of any sequence of committed records, read by one receiver that
      is never reset, come out as exactly those records in that order. */
  lemma {:induction false} LinkDelivers(l: Layer, items: seq<Item>, crc: Crc)
    requires Idle(l, crc) && forall i :: 0 <= i < |items| ==> items[i].Valid()
    ensures var (l', os) := Receive(l, Flatten(Wires(items, crc)), crc);
            Idle(l', crc) && DeliversItems(os, items, crc)
    decreases |items|
  {
    hide Next, Receive, Visible, DeliversItem;
    if |items| == 0 {
      ReceiveNothing(l, crc);
    } else {
      var init, last := items[..|items| - 1], items[|items| - 1];
      var front, w := Flatten(Wires(init, crc)), last.Wire(crc);
      LinkDelivers(l, init, crc);
      FlattenAppend(Wires(init, crc), w);
      WiresSnoc(items, crc);
      var (l1, o1) := Receive(l, front, crc);
      ItemRoundTrip(l1, last, crc);
      ReceiveConcat(l, front, w, crc);
      var o2 := Receive(l1, w, crc).1;
      assert (o1 + o2)[..|front|] == o1 && (o1 + o2)[|front|..] == o2;
    }
  }

  lemma ReceiveNothing(l: Layer, crc: Crc)
    requires l.Valid()
    ensures Receive(l, [], crc) == (l, [])
  {
  }

  lemma ItemRoundTrip(l: Layer, item: Item, crc: Crc)
    requires Idle(l, crc) && item.Valid()
    ensures var (l', os) := Receive(l, item.Wire(crc), crc);
            Idle(l', crc) && DeliversItem(os, item)
  {
    hide Next, Receive, Visible;
    match item {
      case Framed(m) => FrameRoundTrip(l, m, crc);
      case Printed(text) => PrintedRoundTrip(l, text, crc);
    }
  }

  /** At every moment of every interleaving of sends, prints and drains: what a receiver has
      made of the bytes drained so far is the beginning of the delivery of the committed
      records in order, and all of it once the queue is empty. */
  lemma SinkReachesReceiver(sink: FrameSink, l: Layer, items: seq<Item>)
    requires sink.Valid() && Idle(l, sink.crc) && forall i :: 0 <= i < |items| ==> items[i].Valid()
    requires sink.records == Wires(items, sink.crc)
    ensures var all := Receive(l, Flatten(sink.records), sink.crc).1;
            && DeliversItems(all, items, sink.crc)
            && Receive(l, sink.shifted, sink.crc).1 <= all
            && (sink.buffer.Contents() == [] ==> Receive(l, sink.shifted, sink.crc).1 == all)
  {
    LinkDelivers(l, items, sink.crc);
    hide Receive, DeliversItems, Wires;
    ReceiveConcat(l, sink.shifted, sink.buffer.Contents(), sink.crc);
    assert sink.shifted + [] == sink.shifted;
  }
}
