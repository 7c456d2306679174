/** The bus as the demo application (ElementaryMVVM.Test) uses it: the
    second window's view model subscribes to "token1" and the main window's
    view model publishes on it. */
module ViewModels {
  import opened MessengerTypes
  import Registry
  import Services

  /** Runtime descriptor of `System.String`, a reference type converting to `object`. */
  const StringType := ReferenceType("String", {"Object", "IComparable", "IEnumerable"})

  /** Runtime descriptor of `System.Int32`, a value type. */
  const Int32Type := ValueType("Int32")

  /** The demo application's exchange over one bus: the second window's view
      model registers a string handler on "token1" when its window loads, the
      main window sends a string on "token1" (and, for contrast, an int), the
      second window unregisters when it closes, and the main window sends again. */
  method WindowExchange(secondWindow: nat, handler: HandlerId)
    returns (registered: Result<bool>, delivered: Result<bool>, reached: seq<Registry.Key<nat, string>>,
             deliveredInt: Result<bool>, unregistered: Result<bool>, deliveredAfterClose: Result<bool>)
    ensures registered == Ok(true) && unregistered == Ok(true)
    ensures delivered == Ok(true) && reached == [RecipientAndToken(secondWindow, "token1")]
    ensures deliveredInt == Ok(false)
    ensures deliveredAfterClose == Ok(false)
  {
    var messenger := new Services.Messenger<nat, string>();
    var k := RecipientAndToken(secondWindow, "token1");
    var h := Handler(handler, StringType);
    registered := messenger.Register(NonNull(secondWindow), NonNull("token1"), NonNull(h));
    assert messenger.registeredMessages == map[k := h];
    assert Registry.Matching(messenger.registeredMessages, "token1", StringType) == {k};
    delivered, reached := messenger.Send(NonNull("Message delivered"), StringType, NonNull("token1"));
    assert multiset(reached) == multiset{k};
    assert |reached| == 1 && reached[0] in multiset(reached);
    assert !Compatible(StringType, Int32Type);
    assert Registry.Matching(messenger.registeredMessages, "token1", Int32Type) == {};
    var intReached;
    deliveredInt, intReached := messenger.Send(NonNull(42), Int32Type, NonNull("token1"));
    unregistered := messenger.Unregister(NonNull(secondWindow), NonNull("token1"));
    assert messenger.registeredMessages.Keys == {};
    assert Registry.Matching(messenger.registeredMessages, "token1", StringType) == {};
    var closedReached;
    deliveredAfterClose, closedReached := messenger.Send(NonNull("Message delivered"), StringType, NonNull("token1"));
  }
}
