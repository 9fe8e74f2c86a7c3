/** Client code: what a caller can conclude from the handlers' contracts alone. */
module Scenarios {
  import opened Domain
  import opened Presence
  import opened Events
  import opened Store
  import opened SocketServer

  /** Bob connects twice; the first socket's disconnect still clears his entry. */
  method StaleDisconnect()
  {
    var presence := new UserSocketMap();
    var store := new MessageStore();
    var io := new EventLog();
    OnConnection(presence, store, io, Some("bob"), "socket-1");
    OnConnection(presence, store, io, Some("bob"), "socket-2");
    assert presence.GetReceiverSocketId("bob") == Some("socket-2");
    OnDisconnect(presence, Some("bob"));
    assert presence.GetReceiverSocketId("bob") == None;
  }
}
