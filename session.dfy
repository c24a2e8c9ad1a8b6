/**
 * The session actor: it owns a reader and a writer child, forwards outgoing
 * messages to the writer and incoming ones to the node session handler, and
 * stops as soon as either child exits. Both handlers only decide which cast
 * or which stop to issue; the actor runtime that delivers them is not modelled.
 */
module SessionActor {
  import opened Wrappers
  import opened Messages

  /** The id of an actor (`ActorCell::get_id`). */
  type ActorId = nat

  /** `Session`: the node session handler that receives what arrives. */
  datatype Session = Session(handler: ActorId)

  /** `SessionState`: the two children. */
  datatype SessionState = SessionState(writer: ActorId, reader: ActorId)

  /** One cast the session issues: a request to the writer, or a message for the node session handler. */
  datatype Cast<M> = ToWriter(to: ActorId, request: WriterMessage<M>) | ToHandler(to: ActorId, note: HandlerMessage<M>)

  /** The network message a cast carries. */
  function Carried<M>(cast: Cast<M>): M
  {
    match cast
    case ToWriter(_, WriteObject(m)) => m
    case ToHandler(_, MessageReceived(m)) => m
  }

  /** `Session::handle`: an outgoing message goes to the writer, an incoming one to the handler. */
  function Handle<M>(session: Session, state: SessionState, message: SessionMessage<M>): (cast: Cast<M>)
    ensures cast.ToWriter? <==> message.Send?
    ensures cast.ToWriter? ==> cast.to == state.writer
    ensures cast.ToHandler? ==> cast.to == session.handler
    ensures Carried(cast) == message.msg
  {
    match message
    case Send(m) => ToWriter(state.writer, WriteObject(m))
    case ObjectAvailable(m) => ToHandler(session.handler, MessageReceived(m))
  }

  /** Dispatch loses nothing: the message can be read back from the cast, together with its direction. */
  lemma HandleInjective<M>(session: Session, state: SessionState, a: SessionMessage<M>, b: SessionMessage<M>)
    ensures Handle(session, state, a) == Handle(session, state, b) <==> a == b
  {
    if Handle(session, state, a) == Handle(session, state, b) {
      assert a.Send? == b.Send?;
      assert a.msg == Carried(Handle(session, state, a));
    }
  }

  /** The events a supervisor receives about its children; the boxed exit state of a terminated child is not modelled. */
  datatype SupervisionEvent =
    | ActorStarted(actor: ActorId)
    | ActorTerminated(actor: ActorId, exitReason: Option<string>)
    | ActorPanicked(actor: ActorId, panicMsg: string)
    | ProcessGroupChanged

  /** Which child an event is about, for the log line. */
  datatype ChildRole = ReaderChild | WriterChild | UnknownChild

  /** The reader is compared first, then the writer. */
  function RoleOf(state: SessionState, actor: ActorId): (role: ChildRole)
    ensures role == ReaderChild <==> actor == state.reader
    ensures role == WriterChild <==> actor != state.reader && actor == state.writer
  {
    if actor == state.reader then ReaderChild
    else if actor == state.writer then WriterChild
    else UnknownChild
  }

  /** What the session does about an event: which child it logs about, and the reason it stops with. */
  datatype SupervisorAction = SupervisorAction(reported: Option<ChildRole>, stop: Option<string>)

  /** `Session::handle_supervisor_evt`: any child that panics or exits stops the whole session. */
  function HandleSupervisorEvt(state: SessionState, event: SupervisionEvent): (r: SupervisorAction)
    ensures event.ActorPanicked? ==> r == SupervisorAction(Some(RoleOf(state, event.actor)), Some(CHILD_PANIC))
    ensures event.ActorTerminated? ==> r == SupervisorAction(Some(RoleOf(state, event.actor)), Some(CHILD_TERMINATE))
    ensures r.stop.Some? <==> event.ActorPanicked? || event.ActorTerminated?
    ensures r.stop.None? ==> r.reported.None?
  {
    match event
    case ActorPanicked(actor, _) => SupervisorAction(Some(RoleOf(state, actor)), Some(CHILD_PANIC))
    case ActorTerminated(actor, _) => SupervisorAction(Some(RoleOf(state, actor)), Some(CHILD_TERMINATE))
    case _ => SupervisorAction(None, None)
  }

  /** The stop decision ignores which actor the event is about and the message that came with it; only the log line differs. */
  lemma StopIgnoresIdentity(state: SessionState, other: SessionState, e: SupervisionEvent, f: SupervisionEvent)
    requires e.ActorPanicked? == f.ActorPanicked? && e.ActorTerminated? == f.ActorTerminated?
    ensures HandleSupervisorEvt(state, e).stop == HandleSupervisorEvt(other, f).stop
  {
  }
}
