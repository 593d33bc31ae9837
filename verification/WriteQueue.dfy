// The write queue of rpc_service::connection: responses are pushed by any thread, and one
// asynchronous write at a time sends the front message. Each method below is one atomic step (a
// critical section under write_mtx_, or a part of the completion handler outside it), so a sequence
// of calls is one interleaving.
module WriteQueue {
  import opened WireFormat

  /** What the asynchronous machinery is doing: nothing; a write is outstanding; a successful
      completion has passed the has_closed check but not yet taken the lock; or the handler returned
      without popping, so that no write will ever follow. */
  datatype Activity = Idle | Writing(frame: Frame) | Handling | Stopped

  class Connection {
    var writeQueue: seq<Message>
    var header: Header
    var writeSize: nat
    var hasClosed: bool

    var activity: Activity           // the state of the asynchronous machinery
    ghost var failed: bool           // some write completed with an error
    ghost var startedBefore: nat     // writes started up to that failure
    ghost var pushed: seq<Message>   // every message given to response, in lock order
    ghost var popped: seq<Message>
    ghost var wire: seq<Frame>       // the frames written successfully
    ghost var started: nat           // how many writes were started

    ghost predicate Valid()
      reads this
    {
      && pushed == popped + writeQueue
      && (forall m :: m in pushed ==> Sendable(m))
      && (activity.Idle? <==> writeQueue == [])
      && (activity.Writing? ==>
            && activity.frame == FrameOf(writeQueue[0]) == Frame(header, writeQueue[0].content)
            && writeSize == header.bodyLen)
      && (failed ==> activity.Stopped? && hasClosed && started == startedBefore)
      && (activity.Stopped? ==> hasClosed)
      && started == |popped| + (if activity.Idle? then 0 else 1)
      && wire == Frames(popped)
                 + (if activity.Handling? || (activity.Stopped? && !failed) then [FrameOf(writeQueue[0])] else [])
    }

    constructor ()
      ensures Valid() && pushed == [] && wire == [] && !failed && !hasClosed
    {
      writeQueue, header, writeSize, hasClosed := [], Header(0, 0, 0, 0, 0), 0, false;
      activity, failed, pushed, popped, wire, started, startedBefore := Idle, false, [], [], [], 0, 0;
    }

    /** write: the header is filled in from the front message and a write of both is started. It
        overwrites header_, so no write may be outstanding. */
    method Write()
      requires writeQueue != [] && !activity.Writing?
      modifies this`header, this`writeSize, this`activity, this`started
      ensures activity == Writing(FrameOf(writeQueue[0])) && activity.frame == Frame(header, writeQueue[0].content)
      ensures writeSize == header.bodyLen && started == old(started) + 1
    {
      var msg := writeQueue[0];
      writeSize := |msg.content|;
      header := Header(MAGIC, Code(msg.reqType), writeSize, msg.reqId, 0);
      activity, started := Writing(Frame(header, msg.content)), started + 1;
    }

    /** response: pushes, and starts a write only when the queue was empty. */
    method Response(reqId: nat, data: seq<Byte>, reqType: RequestType)
      requires Valid() && reqId < UINT64 && |data| < MAX_BUF_LEN
      modifies this
      ensures Valid() && pushed == old(pushed) + [Message(reqId, reqType, data)]
      ensures wire == old(wire) && failed == old(failed) && hasClosed == old(hasClosed)
      ensures !old(activity).Idle? ==>
        activity == old(activity) && header == old(header) && started == old(started)
        && writeQueue[0] == old(writeQueue)[0]
      ensures old(activity).Idle? ==> started == old(started) + 1
    {
      var message := Message(reqId, reqType, data);
      writeQueue := writeQueue + [message];
      pushed := pushed + [message];
      assert pushed == popped + writeQueue;
      if |writeQueue| > 1 { return; }
      Write();
    }

    /** on_write, up to the lock: the machinery reports the outcome of the outstanding write. On
        success the bytes that header_ and the front message hold now are what went out. */
    method Complete(error: bool)
      requires Valid() && activity.Writing?
      modifies this`activity, this`hasClosed, this`failed, this`wire, this`startedBefore
      ensures Valid() && !activity.Writing? && !activity.Idle?
      ensures failed == error && (error ==> hasClosed && wire == old(wire))
      ensures !error ==> wire == old(wire) + [old(activity).frame]
    {
      if error {
        activity, failed, startedBefore := Stopped, true, started;
        Close();
        return;
      }
      wire := wire + [Frame(header, writeQueue[0].content)];
      activity := if hasClosed then Stopped else Handling;
    }

    /** on_write, under the lock: the front message is popped and the next one written. */
    method Pop()
      requires Valid() && activity.Handling?
      modifies this`writeQueue, this`header, this`writeSize, this`activity, this`popped, this`started
      ensures Valid() && pushed == old(pushed) && wire == old(wire)
      ensures writeQueue == old(writeQueue)[1..]
      ensures activity.Writing? || activity.Idle?
    {
      popped := popped + [writeQueue[0]];
      writeQueue := writeQueue[1..];
      assert pushed == popped + writeQueue;
      assert wire == Frames(popped);
      activity := Idle;
      if writeQueue != [] { Write(); }
    }

    /** close, which the timer, the reader and the destructor may call at any moment. */
    method Close()
      modifies this`hasClosed
      ensures hasClosed
    {
      if hasClosed { return; }
      hasClosed := true;
    }

    /** What went out is a prefix of what was pushed: in order, whole, and nothing twice. */
    lemma WireIsPrefix()
      requires Valid()
      ensures wire <= Frames(pushed)
    {
      forall i | 0 <= i < |wire| ensures wire[i] == Frames(pushed)[i] {
        if i == |popped| { assert pushed[i] == writeQueue[0]; }
      }
    }

    /** The reader at the other end gets the messages of the frames written, as they were pushed, up to
        the first with an empty body. */
    lemma WireIsRead(pads: seq<(Byte, Byte)>)
      requires Valid() && |pads| == |wire|
      ensures |wire| <= |pushed|
      ensures Delivered(Stream(wire, pads)) == BeforeEmpty(pushed[..|wire|])
    {
      WireIsPrefix();
      var ms := pushed[..|wire|];
      assert wire == Frames(ms);
      ReaderRecovers(ms, pads, []);
      assert Stream(wire, pads) + [] == Stream(wire, pads);
    }
  }

  /** One interleaving step of the environment. */
  datatype Action = Push(reqId: nat, data: seq<Byte>, reqType: RequestType) | Completion(error: bool) | Lock | Shutdown

  /** Any interleaving of callers, completions and closes, of any length; an action that cannot
      occur in the current state does not. What went out is a prefix of what was pushed, at most one
      write is unfinished, none was started after a failed one, and the reader gets what was pushed. */
  method Run(c: Connection, actions: seq<Action>)
    requires c.Valid() && c.pushed == [] && !c.failed
    requires forall a :: a in actions && a.Push? ==> a.reqId < UINT64 && |a.data| < MAX_BUF_LEN
    modifies c
    ensures c.Valid() && c.wire <= Frames(c.pushed)
    ensures c.started <= |c.wire| + 1
    ensures c.failed ==> c.started == c.startedBefore
    ensures forall pads: seq<(Byte, Byte)> :: |pads| == |c.wire| ==>
      Delivered(Stream(c.wire, pads)) == BeforeEmpty(c.pushed[..|c.wire|])
  {
    for i := 0 to |actions|
      invariant c.Valid()
    {
      var a := actions[i];
      match a
      case Push(reqId, data, reqType) => c.Response(reqId, data, reqType);
      case Completion(error) => if c.activity.Writing? { c.Complete(error); }
      case Lock => if c.activity.Handling? { c.Pop(); }
      case Shutdown => c.Close();
    }
    c.WireIsPrefix();
    forall pads: seq<(Byte, Byte)> | |pads| == |c.wire|
      ensures Delivered(Stream(c.wire, pads)) == BeforeEmpty(c.pushed[..|c.wire|])
    {
      c.WireIsRead(pads);
    }
  }
}
