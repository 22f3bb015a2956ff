/**
 * PacketHandlerFactory: the InputEvent type chooses the handler that receives the event.
 * Each handler is a single function-static instance, so a handler is identified by its kind.
 */
module Handlers {
  import opened Bytes

  /** InputEvent.type: the seven kinds the factory knows and any other enum value. */
  datatype EventType = Mouse | Key | Ping | Resolution | Codec | Clipboard | Fps | Other(code: int)

  /** The seven static handler instances. */
  datatype Handler = MouseHandler | KeyHandler | PingHandler | ResolutionHandler
                   | CodecHandler | ClipboardHandler | FpsHandler

  /** GetHandler: the switch over the event type; any other type has no handler (null). */
  function GetHandler(t: EventType): (h: Option<Handler>)
  {
    match t
    case Mouse => Some(MouseHandler)
    case Key => Some(KeyHandler)
    case Ping => Some(PingHandler)
    case Resolution => Some(ResolutionHandler)
    case Codec => Some(CodecHandler)
    case Clipboard => Some(ClipboardHandler)
    case Fps => Some(FpsHandler)
    case Other(_) => None
  }

  /** The one event type each handler serves. */
  function Serves(h: Handler): (t: EventType)
    ensures !t.Other?
  {
    match h
    case MouseHandler => Mouse
    case KeyHandler => Key
    case PingHandler => Ping
    case ResolutionHandler => Resolution
    case CodecHandler => Codec
    case ClipboardHandler => Clipboard
    case FpsHandler => Fps
  }

  /**
   * The factory and Serves are inverse: every handler is reached from exactly the type it
   * serves, and a type has a handler exactly when it is one of the seven.
   */
  lemma GetHandlerInverse(t: EventType, h: Handler)
    ensures GetHandler(t) == Some(h) <==> t == Serves(h)
    ensures GetHandler(t).None? <==> t.Other?
  {
    match t
    case Mouse =>
    case Key =>
    case Ping =>
    case Resolution =>
    case Codec =>
    case Clipboard =>
    case Fps =>
    case Other(_) =>
  }

  /** Two different known types never share a handler. */
  lemma GetHandlerInjective(t1: EventType, t2: EventType)
    requires GetHandler(t1).Some? && GetHandler(t1) == GetHandler(t2)
    ensures t1 == t2
  {
    GetHandlerInverse(t1, GetHandler(t1).value);
    GetHandlerInverse(t2, GetHandler(t1).value);
  }
}
