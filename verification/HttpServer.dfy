/** The sending side of a server connection: one write in flight, the rest queued behind it. */
module HttpServers {
  import opened Bytes

  type Buffer = seq<Byte>

  datatype Ending = Unaccepted | Open | Drained | Failed | Forced

  datatype Event = Send(buf: Buffer) | Written | WriteFailed | WillClose | Close

  /** Somebody asks for the connection to be closed once all is sent. */
  ghost predicate Asked(events: seq<Event>) {
    WillClose in events
  }

  /** A write fails, or somebody closes without waiting. */
  ghost predicate Broken(events: seq<Event>) {
    WriteFailed in events || Close in events
  }

  lemma PrefixNext(events: seq<Event>, n: nat)
    requires n < |events|
    ensures Asked(events[..n + 1]) <==> Asked(events[..n]) || events[n].WillClose?
    ensures Broken(events[..n + 1]) <==> Broken(events[..n]) || events[n].WriteFailed? || events[n].Close?
  {
    assert events[..n + 1] == events[..n] + [events[n]];
  }

  class HttpServer {
    var sendList: seq<Buffer>
    var isOpen: bool
    var willClose: bool

    // the outside world: what async_write was given and has not answered yet, what was accepted
    // for sending, what the peer has got, and how the connection ended
    var inFlight: seq<Buffer>
    ghost var submitted: seq<Buffer>
    ghost var written: seq<Buffer>
    ghost var ending: Ending

    ghost predicate Valid()
      reads this
    {
      && (isOpen <==> ending == Open)
      && (isOpen ==> submitted == written + sendList)
      && (isOpen ==> inFlight == if sendList == [] then [] else [sendList[0]])
      && (isOpen && willClose ==> sendList != [])
      && written <= submitted
      && (ending == Unaccepted ==> sendList == [] && inFlight == [] && submitted == [] && !willClose)
      && (ending == Drained ==> written == submitted && inFlight == [])
    }

    constructor ()
      ensures Valid() && !isOpen && ending == Unaccepted && submitted == [] && written == []
    {
      sendList, isOpen, willClose := [], false, false;
      inFlight, submitted, written, ending := [], [], [], Unaccepted;
    }

    /** The acceptor opens the connection. */
    method Accept()
      requires Valid() && ending == Unaccepted
      modifies this
      ensures Valid() && isOpen && submitted == [] && written == []
    {
      isOpen := true;
      ending := Open;
    }

    method TcpSend(buffer: Buffer)
      requires Valid()
      modifies this
      ensures Valid() && isOpen == old(isOpen) && written == old(written) && ending == old(ending)
      ensures submitted == if isOpen then old(submitted) + [buffer] else old(submitted)
      ensures inFlight == if isOpen && old(inFlight) == [] then [buffer] else old(inFlight)
      ensures willClose == old(willClose)
    {
      if !isOpen {
        return;
      }
      var wasEmpty := sendList == [];
      sendList := sendList + [buffer];
      submitted := submitted + [buffer];
      if wasEmpty {
        inFlight := [buffer];
      }
      assert submitted == written + sendList;
    }

    method HandleTcpSend(ok: bool)
      requires Valid() && inFlight != []
      modifies this
      ensures Valid() && submitted == old(submitted)
      ensures !old(isOpen) ==> !isOpen && written == old(written) && ending == old(ending)
      ensures old(isOpen) && ok ==> written == old(written) + old(inFlight)
      ensures old(isOpen) && ok ==> ending == if old(willClose) && written == submitted then Drained else Open
      ensures willClose == old(willClose)
      ensures old(isOpen) && !ok ==> ending == Failed && written == old(written)
    {
      if !isOpen {
        inFlight := [];
        return;
      }
      inFlight := [];
      if ok {
        written := written + [sendList[0]];
        sendList := sendList[1..];
        assert submitted == written + sendList;
        if sendList != [] {
          inFlight := [sendList[0]];
        }
        if sendList == [] && willClose {
          CloseWith(Drained);
        }
      } else {
        CloseWith(Failed);
      }
    }

    method RequestClose()
      requires Valid()
      modifies this
      ensures Valid() && submitted == old(submitted) && written == old(written)
      ensures old(isOpen) && submitted == written ==> ending == Drained
      ensures old(isOpen) && submitted != written ==> ending == Open && willClose
      ensures !old(isOpen) ==> ending == old(ending)
      ensures old(isOpen) ==> willClose
    {
      if !isOpen {
        return;
      }
      willClose := true;
      if sendList == [] {
        CloseWith(Drained);
      }
    }

    method CloseNow()
      requires Valid()
      modifies this
      ensures Valid() && !isOpen && submitted == old(submitted) && written == old(written)
      ensures ending == if old(isOpen) then Forced else old(ending)
    {
      if isOpen {
        CloseWith(Forced);
      }
    }

    method CloseWith(how: Ending)
      requires isOpen && submitted == written + sendList && how != Open && how != Unaccepted
      requires how == Drained ==> sendList == [] && inFlight == []
      modifies this
      ensures Valid() && !isOpen && ending == how
      ensures submitted == old(submitted) && written == old(written) && willClose == old(willClose)
    {
      sendList := [];
      isOpen := false;
      ending := how;
    }

    /**
     Any interleaving of calls and completions: what the peer got is always a prefix of what was
     submitted, and a connection that closed by itself has sent everything, in order.
     */
    method Serve(events: seq<Event>)
      requires Valid()
      modifies this
      ensures Valid()
      ensures old(written) <= written <= submitted && old(submitted) <= submitted
      ensures ending == Drained ==> written == submitted
      ensures isOpen ==> submitted == written + sendList && |inFlight| == if sendList == [] then 0 else 1
      ensures old(isOpen) && isOpen ==> (willClose <==> old(willClose) || Asked(events))
      ensures old(isOpen) && ending == Drained ==> old(willClose) || Asked(events)
      ensures old(isOpen) && !Broken(events) ==>
                ending == if (old(willClose) || Asked(events)) && !isOpen then Drained else Open
      ensures old(isOpen) && !Broken(events) && (old(willClose) || Asked(events)) ==> (ending == Drained <==> written == submitted)
    {
      for n := 0 to |events|
        invariant Valid() && old(written) <= written && old(submitted) <= submitted
        invariant !old(isOpen) ==> !isOpen
        invariant old(isOpen) && isOpen ==> (willClose <==> old(willClose) || Asked(events[..n]))
        invariant old(isOpen) && ending == Drained ==> old(willClose) || Asked(events[..n])
        invariant old(isOpen) && !Broken(events[..n]) ==> ending == Open || ending == Drained
      {
        PrefixNext(events, n);
        match events[n]
        case Send(buf) => TcpSend(buf);
        case Written =>
          if inFlight != [] {
            HandleTcpSend(true);
          }
        case WriteFailed =>
          if inFlight != [] {
            HandleTcpSend(false);
          }
        case WillClose => RequestClose();
        case Close => CloseNow();
      }
      assert events[..|events|] == events;
    }
  }
}
