/** The message bus `Messenger`: a registry field that Register and
    Unregister update in place, and a Send that walks the registry and invokes
    the selected handlers. */
module Services {
  import opened MessengerTypes
  import Registry

  class Messenger<R(==), T(==)> {
    /** `registeredMessages`: the handler registered under each (recipient, token) key. */
    var registeredMessages: Registry.Registry<R, T>

    constructor ()
      ensures registeredMessages == map[]
    {
      registeredMessages := map[];
    }

    /** Registers `action` under (recipient, token) unless that key is
        already taken; answers whether it did. */
    method Register(recipient: Nullable<R>, token: Nullable<T>, action: Nullable<Handler>) returns (r: Result<bool>)
      modifies this
      ensures (r, registeredMessages) == Registry.Register(old(registeredMessages), recipient, token, action)
      ensures r.Failure? ==> registeredMessages == old(registeredMessages)
      ensures r == Ok(false) ==> registeredMessages == old(registeredMessages)
    {
      if recipient.Null? {
        return Failure(ArgumentNull("recipient"));
      }
      if token.Null? {
        return Failure(ArgumentNull("token"));
      }
      if action.Null? {
        return Failure(ArgumentNull("action"));
      }
      var key := RecipientAndToken(recipient.value, token.value);
      var (added, next) := Registry.TryAdd(registeredMessages, key, action.value);
      registeredMessages := next;
      return Ok(added);
    }

    /** Removes the registration under (recipient, token), if any; answers
        whether there was one. */
    method Unregister(recipient: Nullable<R>, token: Nullable<T>) returns (r: Result<bool>)
      modifies this
      ensures (r, registeredMessages) == Registry.Unregister(old(registeredMessages), recipient, token)
      ensures r.Failure? || r == Ok(false) ==> registeredMessages == old(registeredMessages)
    {
      if recipient.Null? {
        return Failure(ArgumentNull("recipient"));
      }
      if token.Null? {
        return Failure(ArgumentNull("token"));
      }
      var key := RecipientAndToken(recipient.value, token.value);
      var (removed, next) := Registry.TryRemove(registeredMessages, key);
      registeredMessages := next;
      return Ok(removed);
    }

    /** Sends `message` on `token`; `sent` is the type argument `TMessage`. `invoked` lists
        the keys whose handlers were called with the message, in the order
        of the walk: each selected entry exactly once, no other entry. */
    method Send<M>(message: Nullable<M>, sent: MsgType, token: Nullable<T>)
      returns (r: Result<bool>, invoked: seq<Registry.Key<R, T>>)
      ensures r == Registry.Send(registeredMessages, message, sent, token)
      ensures r.Failure? ==> invoked == []
      ensures r.Ok? ==> multiset(invoked) == multiset(Registry.Matching(registeredMessages, token.value, sent))
      ensures r.Ok? ==> (r.value <==> invoked != [])
    {
      if message.Null? {
        return Failure(ArgumentNull("message")), [];
      }
      if token.Null? {
        return Failure(ArgumentNull("token")), [];
      }
      var reg := registeredMessages;
      var wasSended := false;
      invoked := [];
      var pending := reg.Keys;
      while pending != {}
        invariant pending <= reg.Keys
        invariant multiset(invoked)
               == multiset(set k | k in reg && k !in pending && Registry.Selects(k, reg[k], token.value, sent))
        invariant wasSended <==> invoked != []
        decreases pending
      {
        var k :| k in pending;
        ghost var before := set j | j in reg && j !in pending && Registry.Selects(j, reg[j], token.value, sent);
        if Registry.Selects(k, reg[k], token.value, sent) {
          invoked := invoked + [k];
          wasSended := true;
          assert (set j | j in reg && j !in pending - {k} && Registry.Selects(j, reg[j], token.value, sent))
              == before + {k};
        } else {
          assert (set j | j in reg && j !in pending - {k} && Registry.Selects(j, reg[j], token.value, sent))
              == before;
        }
        pending := pending - {k};
      }
      assert (set k | k in reg && k !in pending && Registry.Selects(k, reg[k], token.value, sent))
          == Registry.Matching(reg, token.value, sent);
      assert wasSended <==> Registry.Matching(reg, token.value, sent) != {} by {
        assert |multiset(invoked)| == |invoked|;
      }
      return Ok(wasSended), invoked;
    }
  }
}
