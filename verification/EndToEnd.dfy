/** From the fields handed to a builder to the stream state of the receiver: a block
    wrapped in a HEADERS frame and cut anywhere arrives with the original fields. */
module EndToEnd {
  import opened Bytes
  import opened DataStream
  import opened DataStreamFrames
  import Varint
  import Qpack
  import QpackBuilder

  /** A frame with a payload is finished by its own last octet. */
  lemma FrameThroughNow(s: State, f: Frame)
    requires AtBoundary(s) && f.Valid() && f.payload != []
    ensures Feed(s, f.Wire()) == AsOutcome(s, f, BatchFrame(PhaseOf(s), f))
  {
    var c := s.(hdr := f.Header(), ftype := f.Type());
    FeedHeader(s, f.typeOctets, f.lengthOctets, f.payload);
    HeaderIsRead(f.typeOctets, f.lengthOctets);
    ClassifyIsAdmission(c);
    if Admission(PhaseOf(s), f.Type(), |f.payload|).None? {
      var s1 := c.(length := |f.payload|, read := 0, parsed := true);
      assert Wf(s1);
      FinishIsVerdict(s, f);
      hide Feed, Finish, HeaderRead, Classify, BatchFrame, Qpack.ParseBlock, Wf;
      FeedPayload(s1, f.payload);
      PrependNothing(Feed(s1, f.payload));
    }
  }

  /** The HEADERS frame around a block; any varint of the right value may give the length. */
  function HeadersFrame(lengthOctets: Bytes, block: Bytes): Frame {
    Frame([HEADERS], lengthOctets, block)
  }

  /** The two length octets that the server reserves and fills in afterwards. */
  function ReservedLength(n: nat): Bytes
    requires n < 0x4000
  {
    [0x40 + n / 0x100, n % 0x100]
  }

  lemma ReservedLengthIsVarint(n: nat)
    requires n < 0x4000
    ensures Varint.IsVarint(ReservedLength(n)) && Varint.Value(ReservedLength(n)) == n
  {
    Varint.WtDecodeIsParse(ReservedLength(n));
    assert ReservedLength(n)[..2] == ReservedLength(n);
  }

  /** The header parts that a stream has found, once nothing else is pending. */
  predicate HeaderArrived(o: Outcome, parts: Qpack.Parts) {
    && o.Run? && o.data == [] && AtBoundary(o.state)
    && o.state.headerFound && !o.state.trailerFound && o.state.header == parts
  }

  lemma BlockEndToEnd(lengthOctets: Bytes, block: Bytes, parts: Qpack.Parts, chunks: seq<Bytes>)
    requires Varint.IsVarint(lengthOctets) && Varint.Value(lengthOctets) == |block| <= MAX_HEADERS
    requires Qpack.ParseBlock(block) == Qpack.Parsed(parts)
    requires Join(chunks) == [HEADERS] + lengthOctets + block
    ensures HeaderArrived(FeedAll(INITIAL, chunks), parts)
  {
    hide Feed;
    var f := HeadersFrame(lengthOctets, block);
    TypeOctet();
    ChunkingNeverMatters(INITIAL, chunks);
    assert f.Wire() == Join(chunks);
    FrameThroughNow(INITIAL, f);
  }

  lemma TypeOctet()
    ensures Varint.IsVarint([HEADERS]) && Varint.Value([HEADERS]) == HEADERS
  {
    Varint.WtDecodeIsParse([HEADERS]);
    assert [HEADERS][..1] == [HEADERS];
  }

  predicate Wrapped(lengthOctets: Bytes, block: Bytes, chunks: seq<Bytes>) {
    && Varint.IsVarint(lengthOctets) && Varint.Value(lengthOctets) == |block| <= MAX_HEADERS
    && Join(chunks) == [HEADERS] + lengthOctets + block
  }

  lemma RequestEndToEnd(path: Bytes, range: Bytes, host: Option<Bytes>, ua: Option<Bytes>,
                        lengthOctets: Bytes, chunks: seq<Bytes>)
    requires Qpack.Sized(path) && Qpack.Sized(range)
    requires QpackBuilder.SizedOption(host) && QpackBuilder.SizedOption(ua)
    requires Wrapped(lengthOctets, QpackBuilder.Block(QpackBuilder.RequestLines(path, range, host, ua)), chunks)
    ensures HeaderArrived(FeedAll(INITIAL, chunks),
                          Qpack.Parts(Qpack.Get, Some(path), if range == [] then None else Some(range), 0,
                                      Qpack.NoContentType, None))
  {
    hide QpackBuilder.Block, QpackBuilder.RequestLines, Qpack.ParseBlock, FeedAll;
    QpackBuilder.RequestRoundTrip(path, range, host, ua);
    BlockEndToEnd(lengthOctets, QpackBuilder.Block(QpackBuilder.RequestLines(path, range, host, ua)),
      Qpack.Parts(Qpack.Get, Some(path), if range == [] then None else Some(range), 0, Qpack.NoContentType, None),
      chunks);
  }

  lemma PostEndToEnd(path: Bytes, range: Bytes, host: Option<Bytes>, ct: Qpack.ContentType, ua: Option<Bytes>,
                     lengthOctets: Bytes, chunks: seq<Bytes>)
    requires Qpack.Sized(path) && Qpack.Sized(range)
    requires QpackBuilder.SizedOption(host) && QpackBuilder.SizedOption(ua) && QpackBuilder.ContentTypeCode(ct).Some?
    requires var code := QpackBuilder.ContentTypeCode(ct).value;
             Wrapped(lengthOctets, QpackBuilder.Block(QpackBuilder.PostLines(path, range, host, code, ua)), chunks)
    ensures HeaderArrived(FeedAll(INITIAL, chunks),
                          Qpack.Parts(Qpack.Post, Some(path), if range == [] then None else Some(range), 0, ct, None))
  {
    hide QpackBuilder.Block, QpackBuilder.PostLines, Qpack.ParseBlock, FeedAll;
    var code := QpackBuilder.ContentTypeCode(ct).value;
    QpackBuilder.PostRoundTrip(path, range, host, ct, ua);
    BlockEndToEnd(lengthOctets, QpackBuilder.Block(QpackBuilder.PostLines(path, range, host, code, ua)),
      Qpack.Parts(Qpack.Post, Some(path), if range == [] then None else Some(range), 0, ct, None), chunks);
  }

  lemma ConnectEndToEnd(authority: Option<Bytes>, path: Bytes, protocol: Option<Bytes>, origin: Option<Bytes>,
                        ua: Option<Bytes>, lengthOctets: Bytes, chunks: seq<Bytes>)
    requires Qpack.Sized(path) && QpackBuilder.SizedOption(authority) && QpackBuilder.SizedOption(protocol)
    requires QpackBuilder.SizedOption(origin) && QpackBuilder.SizedOption(ua)
    requires Wrapped(lengthOctets,
                     QpackBuilder.Block(QpackBuilder.ConnectLines(authority, path, protocol, origin, ua)), chunks)
    ensures HeaderArrived(FeedAll(INITIAL, chunks),
                          Qpack.Parts(Qpack.Connect, Some(path), None, 0, Qpack.NoContentType, protocol))
  {
    hide QpackBuilder.Block, QpackBuilder.ConnectLines, Qpack.ParseBlock, FeedAll;
    QpackBuilder.ConnectRoundTrip(authority, path, protocol, origin, ua);
    BlockEndToEnd(lengthOctets, QpackBuilder.Block(QpackBuilder.ConnectLines(authority, path, protocol, origin, ua)),
      Qpack.Parts(Qpack.Connect, Some(path), None, 0, Qpack.NoContentType, protocol), chunks);
  }

  lemma ResponseEndToEnd(docType: Qpack.ContentType, server: Option<Bytes>, lengthOctets: Bytes, chunks: seq<Bytes>)
    requires docType != Qpack.ContentTypeNotSupported && QpackBuilder.SizedOption(server)
    requires Wrapped(lengthOctets, QpackBuilder.Block(QpackBuilder.ResponseLines(docType, server)), chunks)
    ensures HeaderArrived(FeedAll(INITIAL, chunks), Qpack.Parts(Qpack.NoMethod, None, None, 200, docType, None))
  {
    hide QpackBuilder.Block, QpackBuilder.ResponseLines, Qpack.ParseBlock, FeedAll;
    QpackBuilder.ResponseRoundTrip(docType, server);
    BlockEndToEnd(lengthOctets, QpackBuilder.Block(QpackBuilder.ResponseLines(docType, server)),
      Qpack.Parts(Qpack.NoMethod, None, None, 200, docType, None), chunks);
  }

  lemma ErrorEndToEnd(code: Bytes, server: Option<Bytes>, room: nat, lengthOctets: Bytes, chunks: seq<Bytes>)
    requires |code| >= 3 && QpackBuilder.SizedOption(server)
    requires code == Qpack.Ascii("404") || room >= 8
    requires |QpackBuilder.ErrorText(code, server, room)| <= room
    requires Wrapped(lengthOctets, QpackBuilder.ErrorText(code, server, room), chunks)
    ensures HeaderArrived(FeedAll(INITIAL, chunks),
                          Qpack.NO_PARTS.(status := QpackBuilder.ErrorStatus(code)))
  {
    hide QpackBuilder.ErrorText, Qpack.ParseBlock, FeedAll, Qpack.Ascii;
    QpackBuilder.ErrorRoundTrip(code, server, room);
    BlockEndToEnd(lengthOctets, QpackBuilder.ErrorText(code, server, room),
      Qpack.NO_PARTS.(status := QpackBuilder.ErrorStatus(code)), chunks);
  }
}
