/** The server's response and its chunkWriter with the fields they update in place (http/server.go). Every
    method makes the state that its function says; what is promised about the states is proved there. */
module ResponseClass {
  import opened GoBytes
  import opened Options
  import opened Bufio
  import opened Chunked
  import opened HeaderFields
  import opened ResponseFraming

  class Response {
    const req: Request

    var handlerHeader: HeaderMap
    var calledHeader: bool
    var wroteHeader: bool
    var status: int
    var contentLength: int
    var written: nat
    var closeAfterReply: bool
    var handlerDone: bool
    var pending: Bytes

    /** The chunkWriter, a struct in the response. */
    var cw: ChunkWriter

    ghost var accepted: Bytes

    ghost function State(): (t: Reply)
      reads this
    {
      Reply(handlerHeader, calledHeader, wroteHeader, status, contentLength, written, closeAfterReply, handlerDone,
        pending, accepted, cw)
    }

    constructor (req: Request)
      ensures this.req == req && State() == FRESH
    {
      this.req := req;
      handlerHeader, calledHeader, wroteHeader, status, contentLength := [], false, false, 0, -1;
      written, closeAfterReply, handlerDone, pending := 0, false, false, [];
      accepted, cw := [], IDLE;
    }

    method Header() returns (h: HeaderMap)
      modifies `cw, `calledHeader
      ensures State() == CallHeader(old(State())) && h == handlerHeader
    {
      if cw.header == None && wroteHeader && !cw.wroteHeader {
        cw := cw.(header := Some(handlerHeader));
      }
      calledHeader := true;
      return handlerHeader;
    }

    /** A change to the map that Header returned, which a handler may keep and change at any time. */
    method ChangeHeader(h: HeaderMap)
      requires calledHeader && IsMap(h)
      modifies `handlerHeader
      ensures State() == old(State()).(handlerHeader := h)
    {
      handlerHeader := h;
    }

    method RequestTooLarge()
      modifies `closeAfterReply, `cw, `calledHeader, `handlerHeader
      ensures State() == TooLarge(old(State()))
    {
      closeAfterReply := true;
      if !wroteHeader {
        var h := Header();
        handlerHeader := Put(h, "Connection", "close");
      }
    }

    /** Status, snapshot and length are fixed by the first call that is not informational; a later one
        changes nothing. */
    method WriteHeader(code: int)
      modifies `wroteHeader, `status, `cw, `contentLength, `handlerHeader
      ensures State() == ResponseFraming.WriteHeader(old(State()), code)
      ensures old(wroteHeader) || (100 <= code <= 199 && code != 101) ==> State() == old(State())
      ensures !old(wroteHeader) && !(100 <= code <= 199 && code != 101) ==> wroteHeader && status == code
    {
      if wroteHeader {
        return;
      }
      if 100 <= code <= 199 && code != 101 {
        return;
      }
      wroteHeader := true;
      status := code;
      if calledHeader && cw.header == None {
        cw := cw.(header := Some(handlerHeader));
      }
      var cl := Get(handlerHeader, LENGTH);
      if cl != [] {
        var v := ParseInt(cl);
        if v.Some? && v.value >= 0 {
          contentLength := v.value;
        } else {
          handlerHeader := Del(handlerHeader, LENGTH);
        }
      }
    }

    method Write(data: Bytes) returns (err: Option<WriteError>)
      modifies `wroteHeader, `status, `cw, `contentLength, `handlerHeader, `written, `pending, `accepted
      ensures (State(), err) == ResponseFraming.Write(old(State()), data)
      ensures accepted == if err == None then old(accepted) + data else old(accepted)
    {
      if !wroteHeader {
        WriteHeader(200);
      }
      if |data| == 0 {
        assert accepted + data == accepted;
        return None;
      }
      if !BodyAllowed(status) {
        return Some(BodyNotAllowed);
      }
      written := written + |data|;
      if contentLength != -1 && written > contentLength {
        return Some(TooLong);
      }
      pending := pending + data;
      accepted := accepted + data;
      return None;
    }

    // ---- the chunkWriter ----

    /** A handler that is done without having set a length gets one, when p is the whole body. */
    method SetLength(p: Bytes) returns (own: seq<Field>)
      modifies `contentLength
      ensures contentLength == if SetsLength(req, old(State()), p) then |p| else old(contentLength)
      ensures own == if SetsLength(req, old(State()), p) then [Field(LENGTH, Itoa(|p|))] else []
    {
      var header := if cw.header.Some? then cw.header.value else handlerHeader;
      var trailers := cw.header.Some? && HasTrailers(cw.header.value);
      var hasTE := Get(header, ENCODING) != [];
      own := [];
      if handlerDone && !trailers && !hasTE && BodyAllowed(status) && !Has(header, LENGTH) && (!req.isHEAD || |p| > 0) {
        contentLength := |p|;
        own := [Field(LENGTH, Itoa(|p|))];
      }
    }

    /** Whether to close the connection after this reply, as far as it does not depend on the framing. */
    method DecideClose(header: HeaderMap, mustClose: bool)
      requires header == Deciding(State())
      modifies `closeAfterReply
      ensures closeAfterReply <==> ClosesAnyway(req, old(State()), contentLength, mustClose)
    {
      if req.wants10KeepAlive && req.keepAlives {
        var sentLength := Get(header, LENGTH) != [];
        if sentLength && Get(header, "Connection") == "keep-alive" {
          closeAfterReply := false;
        }
      }
      var hasCL := contentLength != -1;
      if req.wants10KeepAlive && (req.isHEAD || hasCL || !BodyAllowed(status)) {
        // The reply offers to keep the connection alive.
      } else if req.proto != Http11 || req.wantsClose {
        closeAfterReply := true;
      }
      if Get(header, "Connection") == "close" || !req.keepAlives {
        closeAfterReply := true;
      }
      if mustClose {
        closeAfterReply := true;
      }
    }

    predicate LengthUnknown(header: HeaderMap)
      reads this
    {
      HasBody(req, status) && (contentLength == -1 || Overrides(Get(header, ENCODING)))
    }

    /** Chooses between a length, chunks, and the end of the connection, and deletes what must not be sent beside it. */
    method DecideFraming(before: HeaderMap) returns (header: HeaderMap, chunking: bool)
      modifies `closeAfterReply
      ensures chunking <==> (LengthUnknown(before) && req.proto == Http11 && Get(before, ENCODING) != "identity")
      ensures closeAfterReply <==> (old(closeAfterReply) || (LengthUnknown(before) && !chunking))
      ensures header == Trimmed(req, before, status, contentLength, chunking)
    {
      header, chunking := before, false;
      var te := Get(header, ENCODING);
      var hasTE := te != [];
      var hasCL := contentLength != -1;
      if !BodyAllowed(status) {
        header := Del(header, LENGTH);
        header := Del(header, ENCODING);
      }
      if hasCL && hasTE && te != "identity" {
        header := Del(header, LENGTH);
        hasCL := false;
      }
      if req.isHEAD || !BodyAllowed(status) {
        header := Del(header, ENCODING);
      } else if hasCL {
        header := Del(header, ENCODING);
      } else if req.proto == Http11 {
        if hasTE && te == "identity" {
          closeAfterReply := true;
          header := Del(header, ENCODING);
        } else {
          chunking := true;
          if hasTE && te == "chunked" {
            header := Del(header, ENCODING);
          }
        }
      } else {
        closeAfterReply := true;
        header := Del(header, ENCODING);
      }
      if chunking {
        header := Del(header, LENGTH);
      }
    }

    /** The fields that go out: those left of the snapshot, and the server's own. */
    method SendHead(before: HeaderMap, header: HeaderMap, chunking: bool, own: seq<Field>)
      modifies `cw
      ensures cw == ChunkWriter(
        if old(cw).header.Some? then Some(header) else None, true, chunking,
        if req.proto == Http09 then [] else
          (if old(cw).header.Some? then Written(header) else []) + own
            + (if chunking then [Field(ENCODING, "chunked")] else []),
        old(cw).wire, before, own != [], old(cw).pieces)
    {
      var owned := cw.header.Some?;
      cw := cw.(wroteHeader := true, chunking := chunking, announced := before, lengthSet := own != [], sent := []);
      if owned {
        cw := cw.(header := Some(header));
      }
      if req.proto == Http09 {
        return;
      }
      if owned {
        cw := cw.(sent := Written(header));
      }
      cw := cw.(sent := cw.sent + own);
      if chunking {
        cw := cw.(sent := cw.sent + [Field(ENCODING, "chunked")]);
      }
    }

    /** writeHeader */
    method CwWriteHeader(p: Bytes, mustClose: bool)
      modifies `contentLength, `closeAfterReply, `cw
      ensures State() == ResponseFraming.CwWriteHeader(req, old(State()), p, mustClose)
    {
      var before := if cw.header.Some? then cw.header.value else handlerHeader;
      var own := SetLength(p);
      DecideClose(before, mustClose);
      var header, chunking := DecideFraming(before);
      SendHead(before, header, chunking, own);
    }

    /** chunkWriter.Write on the first k pending bytes. */
    method CwWrite(k: nat, mustClose: bool)
      requires k <= |pending|
      modifies `contentLength, `closeAfterReply, `pending, `cw
      ensures State() == ResponseFraming.CwWrite(req, old(State()), k, mustClose)
      ensures cw.wroteHeader
    {
      var p := pending[..k];
      if !cw.wroteHeader {
        CwWriteHeader(p, mustClose);
      }
      cw := cw.(pieces := cw.pieces + [p]);
      pending := pending[k..];
      if req.isHEAD {
        return;
      }
      if cw.chunking {
        cw := cw.(wire := cw.wire + (HexText(|p|) + CRLF + p + CRLF));
      } else {
        cw := cw.(wire := cw.wire + p);
      }
    }

    method Flush(mustClose: bool)
      modifies `wroteHeader, `status, `contentLength, `handlerHeader, `closeAfterReply, `pending, `cw
      ensures State() == ResponseFraming.Flush(req, old(State()), mustClose)
    {
      if !wroteHeader {
        WriteHeader(200);
      }
      if |pending| > 0 {
        CwWrite(|pending|, mustClose);
      }
      if !cw.wroteHeader {
        CwWriteHeader([], mustClose);
      }
    }

    /** finishRequest and chunkWriter.close: everything accepted is sent, and chunks are ended. */
    method FinishRequest(trailers: Bytes, mustClose: bool)
      modifies `wroteHeader, `status, `contentLength, `handlerHeader, `closeAfterReply, `pending, `cw, `handlerDone
      ensures State() == Finish(req, old(State()), trailers, mustClose)
    {
      handlerDone := true;
      Flush(mustClose);
      if cw.chunking {
        cw := cw.(wire := cw.wire + LAST_CHUNK + trailers + CRLF);
      }
    }
  }

  lemma HelloRuns(h: HeaderMap)
    requires IsMap(h)
    ensures Run(PLAIN, HelloWith(h)) == ResponseFraming.Write(CallHeader(FRESH).(handlerHeader := h), "hello").0
  {
    var events := HelloWith(h);
    assert events[..2] == [HeaderCalled, HeaderChanged(h)] && events[..2][..1] == [HeaderCalled];
    assert Run(PLAIN, []) == FRESH && [HeaderCalled][..0] == [];
    assert Run(PLAIN, [HeaderCalled]) == CallHeader(FRESH);
    assert Run(PLAIN, events[..2]) == CallHeader(FRESH).(handlerHeader := h);
  }

  /** A handler that takes the header map, changes it, and writes five bytes: what is sent is what the run of its events
      makes, whatever it put into the map. */
  method Hello(h: HeaderMap) returns (r: Response, err: Option<WriteError>)
    requires IsMap(h)
    ensures fresh(r) && r.req == PLAIN && r.State() == After(h)
  {
    r := new Response(PLAIN);
    var _ := r.Header();
    r.ChangeHeader(h);
    err := r.Write("hello");
    HelloRuns(h);
    r.FinishRequest([], false);
  }
}
