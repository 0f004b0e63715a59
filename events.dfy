/** What a socket handler emits, as a value. Delivery is the transport's business; the model records
 *  each emit as its target, its event name and its payload, in the order the handler emits them. */
module Events {

  /** Whom an emit reaches. */
  datatype Target =
    | Sender                      // socket.emit: the connection that sent the event
    | Everyone                    // io.emit: every connection
    | EveryoneButSender           // socket.broadcast.emit
    | Channel(name: string)       // io.to(name): a socket id or a room name
    | ChannelButSender(name: string)  // socket.to(name): the room without the sender

  datatype Emit<P> = Emit(target: Target, name: string, payload: P)

  /** What a client's socket.emit sends to the server. */
  datatype Send<P> = Send(name: string, payload: P)
}
