/** The registry of the message bus as a value: a map from
    (recipient, token) keys to handlers, the dictionary operations the bus
    uses on it, and the specification of Register, Unregister and Send as
    functions of the registry before the call. */
module Registry {
  import opened MessengerTypes

  type Key<R, T> = RecipientAndToken<R, T>
  type Registry<R(==), T(==)> = map<Key<R, T>, Handler>

  /** `ConcurrentDictionary.TryAdd`: inserts only when the key is absent and
      reports whether it did. */
  function TryAdd<K(==), V>(m: map<K, V>, k: K, v: V): (r: (bool, map<K, V>))
    ensures r.0 <==> k !in m
    ensures r.1.Keys == m.Keys + {k}
    ensures r.1[k] == if k in m then m[k] else v
    ensures forall j :: j in m ==> r.1[j] == m[j]
  {
    if k in m then (false, m) else (true, m[k := v])
  }

  /** `ConcurrentDictionary.TryRemove`: removes the key when present and
      reports whether it did. */
  function TryRemove<K(==), V>(m: map<K, V>, k: K): (r: (bool, map<K, V>))
    ensures r.0 <==> k in m
    ensures r.1.Keys == m.Keys - {k}
    ensures forall j :: j in r.1 ==> r.1[j] == m[j]
  {
    if k in m then (true, m - {k}) else (false, m)
  }

  /** `Register<TMessage>(recipient, token, action)`: the answer and the
      registry afterwards. */
  function Register<R(==), T(==)>(reg: Registry<R, T>, recipient: Nullable<R>, token: Nullable<T>,
                                  action: Nullable<Handler>): (r: (Result<bool>, Registry<R, T>))
    ensures recipient.Null? ==> r == (Failure(ArgumentNull("recipient")), reg)
    ensures recipient.NonNull? && token.Null? ==> r == (Failure(ArgumentNull("token")), reg)
    ensures recipient.NonNull? && token.NonNull? && action.Null? ==> r == (Failure(ArgumentNull("action")), reg)
    ensures recipient.NonNull? && token.NonNull? && action.NonNull? ==>
      var k := RecipientAndToken(recipient.value, token.value);
      && r.0 == Ok(k !in reg)
      && (k in reg ==> r.1 == reg)
      && (k !in reg ==> r.1.Keys == reg.Keys + {k} && r.1[k] == action.value
                        && forall j :: j in reg ==> r.1[j] == reg[j])
  {
    if recipient.Null? then (Failure(ArgumentNull("recipient")), reg)
    else if token.Null? then (Failure(ArgumentNull("token")), reg)
    else if action.Null? then (Failure(ArgumentNull("action")), reg)
    else
      var (added, next) := TryAdd(reg, RecipientAndToken(recipient.value, token.value), action.value);
      (Ok(added), next)
  }

  /** `Unregister(recipient, token)`: the answer and the registry afterwards. */
  function Unregister<R(==), T(==)>(reg: Registry<R, T>, recipient: Nullable<R>, token: Nullable<T>)
    : (r: (Result<bool>, Registry<R, T>))
    ensures recipient.Null? ==> r == (Failure(ArgumentNull("recipient")), reg)
    ensures recipient.NonNull? && token.Null? ==> r == (Failure(ArgumentNull("token")), reg)
    ensures recipient.NonNull? && token.NonNull? ==>
      var k := RecipientAndToken(recipient.value, token.value);
      && r.0 == Ok(k in reg)
      && r.1.Keys == reg.Keys - {k}
      && forall j :: j in r.1 ==> r.1[j] == reg[j]
  {
    if recipient.Null? then (Failure(ArgumentNull("recipient")), reg)
    else if token.Null? then (Failure(ArgumentNull("token")), reg)
    else
      var (removed, next) := TryRemove(reg, RecipientAndToken(recipient.value, token.value));
      (Ok(removed), next)
  }

  /** The filters of Send: the key's token equals the sent token (`Where`)
      and the stored delegate is an `Action<sent>` (`OfType`). */
  predicate Selects<R, T(==)>(k: Key<R, T>, h: Handler, token: T, sent: MsgType)
    ensures Selects(k, h, token, sent) ==> k.token == token
    ensures h.paramType == sent ==> (Selects(k, h, token, sent) <==> k.token == token)
    ensures sent.ValueType? ==> (Selects(k, h, token, sent) <==> k.token == token && h.paramType == sent)
  {
    k.token == token && Compatible(h.paramType, sent)
  }

  /** The entries whose handlers a Send of a `sent` message on `token` invokes. */
  function Matching<R(==), T(==)>(reg: Registry<R, T>, token: T, sent: MsgType): (s: set<Key<R, T>>)
    ensures s <= reg.Keys
    ensures forall k :: k in s ==> k.token == token && Compatible(reg[k].paramType, sent)
    ensures forall k :: k in reg && k.token == token && Compatible(reg[k].paramType, sent) ==> k in s
  {
    set k | k in reg && Selects(k, reg[k], token, sent)
  }

  /** `Send<TMessage>(message, token)`: the answer, true iff some handler is invoked. */
  function Send<R(==), T(==), M>(reg: Registry<R, T>, message: Nullable<M>, sent: MsgType, token: Nullable<T>)
    : (r: Result<bool>)
    ensures message.Null? ==> r == Failure(ArgumentNull("message"))
    ensures message.NonNull? && token.Null? ==> r == Failure(ArgumentNull("token"))
    ensures message.NonNull? && token.NonNull? ==>
      r.Ok? && (r.value <==> exists k :: k in reg && k.token == token.value && Compatible(reg[k].paramType, sent))
  {
    if message.Null? then Failure(ArgumentNull("message"))
    else if token.Null? then Failure(ArgumentNull("token"))
    else
      MatchingNonEmpty(reg, token.value, sent);
      Ok(Matching(reg, token.value, sent) != {})
  }

  lemma MatchingNonEmpty<R, T>(reg: Registry<R, T>, token: T, sent: MsgType)
    ensures Matching(reg, token, sent) != {}
        <==> exists k :: k in reg && k.token == token && Compatible(reg[k].paramType, sent)
  {
  }

  /** Contravariance of the type filter: a handler registered as
      `Action<object>` is reached by a Send of any reference type that
      converts to `object`. */
  lemma ObjectHandlerReceivesReferenceTypes<R, T>(reg: Registry<R, T>, k: Key<R, T>, sent: MsgType)
    requires k in reg && reg[k].paramType == ReferenceType("Object", {})
    requires sent.ReferenceType? && "Object" in sent.conversions
    ensures k in Matching(reg, k.token, sent)
  {
  }

  /** Registering then unregistering a previously absent key answers true
      both times and gives back the registry as it was. */
  lemma RegisterThenUnregister<R, T>(reg: Registry<R, T>, recipient: R, token: T, action: Handler)
    requires RecipientAndToken(recipient, token) !in reg
    ensures var (added, mid) := Register(reg, NonNull(recipient), NonNull(token), NonNull(action));
            var (removed, after) := Unregister(mid, NonNull(recipient), NonNull(token));
            added == Ok(true) && removed == Ok(true) && after == reg
  {
  }

  /** A second registration under a key answers false and keeps the
      handler registered first. */
  lemma RegisterTwiceKeepsFirst<R, T>(reg: Registry<R, T>, recipient: R, token: T, first: Handler, second: Handler)
    ensures var (_, mid) := Register(reg, NonNull(recipient), NonNull(token), NonNull(first));
            var (again, after) := Register(mid, NonNull(recipient), NonNull(token), NonNull(second));
            var k := RecipientAndToken(recipient, token);
            again == Ok(false) && after == mid && after[k] == (if k in reg then reg[k] else first)
  {
  }

  /** After Unregister, a Send reaches exactly the handlers it reached
      before, except the removed one. */
  lemma MatchingAfterUnregister<R, T>(reg: Registry<R, T>, recipient: R, token: T, sendToken: T, sent: MsgType)
    ensures var (_, after) := Unregister(reg, NonNull(recipient), NonNull(token));
            Matching(after, sendToken, sent) == Matching(reg, sendToken, sent) - {RecipientAndToken(recipient, token)}
  {
  }

  /** After a successful Register, a Send reaches the handlers it reached
      before and, when its token and type select it, the new one. */
  lemma MatchingAfterRegister<R, T>(reg: Registry<R, T>, recipient: R, token: T, action: Handler,
                                           sendToken: T, sent: MsgType)
    ensures var (added, after) := Register(reg, NonNull(recipient), NonNull(token), NonNull(action));
            var k := RecipientAndToken(recipient, token);
            Matching(after, sendToken, sent)
              == Matching(reg, sendToken, sent) + (if added == Ok(true) && Selects(k, action, sendToken, sent) then {k} else {})
  {
  }

  /** Fan-out: distinct recipients registered under one token with handlers
      that accept the sent type all receive the message. */
  lemma FanOut<R, T>(reg: Registry<R, T>, recipients: set<R>, token: T, sent: MsgType)
    requires forall r :: r in recipients ==> RecipientAndToken(r, token) in reg
    requires forall r :: r in recipients ==> Compatible(reg[RecipientAndToken(r, token)].paramType, sent)
    ensures forall r :: r in recipients ==> RecipientAndToken(r, token) in Matching(reg, token, sent)
    ensures |Matching(reg, token, sent)| >= |recipients|
  {
    var keys := set r | r in recipients :: RecipientAndToken(r, token);
    assert keys <= Matching(reg, token, sent);
    KeysOfRecipients(recipients, token);
    SubsetCardinality(keys, Matching(reg, token, sent));
  }

  lemma {:induction false} KeysOfRecipients<R, T>(recipients: set<R>, token: T)
    ensures |set r | r in recipients :: RecipientAndToken(r, token)| == |recipients|
    decreases |recipients|
  {
    if recipients != {} {
      var r0 :| r0 in recipients;
      var rest := recipients - {r0};
      KeysOfRecipients(rest, token);
      assert (set r | r in recipients :: RecipientAndToken(r, token))
          == (set r | r in rest :: RecipientAndToken(r, token)) + {RecipientAndToken(r0, token)};
    } else {
      assert (set r | r in recipients :: RecipientAndToken(r, token)) == {};
    }
  }

  lemma SubsetCardinality<X>(a: set<X>, b: set<X>)
    requires a <= b
    ensures |a| <= |b|
  {
    assert b == a + (b - a);
  }
}
