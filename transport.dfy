/** The TCP connection both engines talk through (a `TCPHelper` in the current engine, the
    host's `tcp` helper in the legacy one), reduced to what the module itself reads and does:
    the endpoint it was opened for, whether it is connected, whether it was destroyed, and the
    commands written to it. */
module Transport {

  class Socket {
    const host: string
    const port: string
    var isConnected: bool
    var destroyed: bool
    /** The commands `send` has written to the device, oldest first. */
    var sent: seq<string>

    /** `new TCPHelper(host, port)`: a socket starts out connecting, not connected. */
    constructor (host: string, port: string)
      ensures this.host == host && this.port == port
      ensures !isConnected && !destroyed && sent == []
    {
      this.host := host;
      this.port := port;
      isConnected := false;
      destroyed := false;
      sent := [];
    }

    /** The connection came up (the helper's `connect` event). */
    method Establish()
      modifies this
      ensures isConnected == !destroyed
      ensures destroyed == old(destroyed) && sent == old(sent)
    {
      isConnected := !destroyed;
    }

    /** The peer or the network dropped the connection. */
    method Drop()
      modifies this
      ensures !isConnected
      ensures destroyed == old(destroyed) && sent == old(sent)
    {
      isConnected := false;
    }

    /** `send(cmd)`. `throws` stands for the helper raising instead of writing: the command
        is then not on the wire. */
    method Send(cmd: string, throws: bool)
      modifies this
      ensures sent == (if throws then old(sent) else old(sent) + [cmd])
      ensures isConnected == old(isConnected) && destroyed == old(destroyed)
    {
      if !throws {
        sent := sent + [cmd];
      }
    }

    /** `destroy()`: the socket is closed for good. */
    method Destroy()
      modifies this
      ensures destroyed && !isConnected && sent == old(sent)
    {
      destroyed := true;
      isConnected := false;
    }
  }
}
