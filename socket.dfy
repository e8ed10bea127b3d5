/** The caller's channel to the local user (`socket.Notifier`): every message
    handed to it is shown to the user, in order. */
module Socket {

  class Notifier {
    /** The messages emitted so far, oldest first. */
    var sent: seq<string>

    constructor ()
      ensures sent == []
    {
      sent := [];
    }

    method Notify(message: string)
      modifies this
      ensures sent == old(sent) + [message]
    {
      sent := sent + [message];
    }
  }
}
