/** The broker session as far as the connect-acknowledgment callback changes it. */
module Broker {

  /** The one topic the process subscribes to. */
  const Topic: string := "test"

  /** The paho client object: whether a subscription is in place, and the topics
      passed to `subscribe`, in call order. */
  class Client {
    var subscribed: bool
    var requested: seq<string>

    constructor ()
      ensures !subscribed && requested == []
    {
      subscribed := false;
      requested := [];
    }

    /** `on_connect`: result code 0 subscribes to the topic; any other code is only
        logged and leaves the session without a new subscription. */
    method OnConnect(rc: int)
      modifies this
      ensures requested == if rc == 0 then old(requested) + [Topic] else old(requested)
      ensures subscribed == (old(subscribed) || rc == 0)
    {
      if rc == 0 {
        requested := requested + [Topic];
        subscribed := true;
      }
    }
  }
}
