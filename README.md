# ElementaryMVVM message bus in Dafny

This project models `Messenger`, the in-process message bus of ElementaryMVVM
(`ElementaryMVVM/Services/Messenger.cs`). The bus keeps a registry. The
registry maps a `(recipient, token)` key to a handler delegate. Components use
three calls on it:

- `Register<TMessage>(recipient, token, action)` adds a handler under a key,
  but only if that key is free.
- `Unregister(recipient, token)` removes the handler under a key.
- `Send<TMessage>(message, token)` calls every handler whose key has the given
  token and whose delegate type accepts `TMessage`.

Files:

- `message_types.dfy` (module `MessengerTypes`). Nullable arguments, the
  `ArgumentNullException` failure, runtime message-type descriptors and the
  delegate filter `Compatible`, handlers, and the key `RecipientAndToken`.
- `registry.dfy` (module `Registry`). The registry as a `map`. It has the
  dictionary's `TryAdd` and `TryRemove`, and specification functions for the
  answer and the new registry of each of the three calls. Lemmas relate the
  calls to each other.
- `messenger.dfy` (module `Services`). Class `Messenger` with the field
  `registeredMessages`. `Register` and `Unregister` reassign that field.
  `Send` walks the registry in a loop, and its loop invariants prove it
  against `Registry.Matching`.
- `test_app.dfy` (module `ViewModels`). The demo application's register / send
  / unregister / send exchange, as a client method of the bus.
- `registry_ops.dfy` (module `RegistryOps`). Facts about sequences of
  Register and Unregister calls:
  - Keys are independent of each other.
  - The registry's size changes by exactly one per successful call.
  - Registrations under distinct free keys all succeed.
  - Of several registrations under one free key, exactly the first succeeds.
  - Registrations under a taken key all fail.

Modelling decisions:

- **Null arguments.** An argument that may be null is a `Nullable<T>`. The
  exception is the result `Failure(ArgumentNull(name))`. Arguments are checked
  in the source's order: recipient, token, action for Register; recipient,
  token for Unregister; message, token for Send. On every failure the registry
  is unchanged.
- **Keys.** Recipients and tokens are type parameters with equality. The key
  is a datatype, so two keys are equal iff their fields are equal. This
  matches the struct's default field-wise `Equals`. The model assumes that the
  tokens' `Equals` is an equivalence relation. The source calls it as
  `storedToken.Equals(token)`.
- **The type filter.** `OfType<Action<TMessage>>` follows .NET delegate
  variance. `Action<in T>` is contravariant, so a handler stored as
  `Action<object>` also passes for `TMessage = string`. `Compatible(stored,
  sent)` models this:
  - It holds for the exact type.
  - It also holds when both types are reference types and `sent` converts to
    `stored`. That conversion is given by the `conversions` set of the sent
    type.
  - For value types it is exact equality.

  The summary comment of `Send` (Messenger.cs:57-58) speaks of handlers whose
  message type and token match. The `OfType` filter at Messenger.cs:76 also
  accepts contravariant handlers, and the model follows `OfType`.
- **Handlers.** A handler is an identity plus the parameter type of its
  runtime delegate type. `Register`'s `TMessage` only types the `action`
  argument statically, so it is not a separate parameter.
- **What Send invokes.** `Send` returns the answer and the sequence of keys
  whose handlers it called, in the order of the walk. The order is
  unspecified. The contract states that the multiset of that sequence equals
  the set of selected entries. So each selected handler runs exactly once,
  and no other handler runs.

## Model

| member | source | states |
|---|---|---|
| `MessengerTypes.Compatible` | ElementaryMVVM/Services/Messenger.cs:76 | a delegate always passes `OfType` for its own type; with a value type on either side only the exact type passes; otherwise it passes exactly when the sent reference type converts to the stored reference type (delegate contravariance) |
| `Registry.TryAdd` | ElementaryMVVM/Services/Messenger.cs:53 | answers true iff the key was absent; the key is present afterwards; an existing handler is kept, otherwise the new one is stored; every other entry is unchanged |
| `Registry.TryRemove` | ElementaryMVVM/Services/Messenger.cs:114 | answers true iff the key was present; afterwards exactly that key is gone and every other entry is unchanged |
| `Registry.Register` | ElementaryMVVM/Services/Messenger.cs:38-54 | a null recipient, token or action (checked in that order) fails with that parameter's name and leaves the registry unchanged; otherwise answers whether the key was free, inserts the handler only then, and never overwrites an existing handler |
| `Registry.Unregister` | ElementaryMVVM/Services/Messenger.cs:103-115 | a null recipient or token fails, naming it, with the registry unchanged; otherwise answers whether the key was present, removes exactly that key and keeps every other entry |
| `Registry.Send` | ElementaryMVVM/Services/Messenger.cs:64-82 | a null message, then a null token, fails with that parameter's name; otherwise the answer is true iff some entry has the sent token and a handler type compatible with the sent type |
| `Registry.Selects` | ElementaryMVVM/Services/Messenger.cs:75-76 | an entry is selected only if its key's token equals the sent token; a handler of exactly the sent type is selected iff the token matches; for a value-type message only a handler of exactly that type is selected |
| `Registry.Matching` | ElementaryMVVM/Services/Messenger.cs:75-76 | the entries Send selects are registry entries; each has the sent token and a handler type compatible with the sent type, and every such entry is selected |
| `Registry.ObjectHandlerReceivesReferenceTypes` | ElementaryMVVM/Services/Messenger.cs:76 | a handler registered as `Action<object>` is selected by a Send of any reference type that converts to `object` on its token |
| `Registry.RegisterThenUnregister` | ElementaryMVVM/Services/Messenger.cs:53 | Register then Unregister on a free key both answer true and give back the original registry |
| `Registry.RegisterTwiceKeepsFirst` | ElementaryMVVM/Services/Messenger.cs:52-53 | a second Register under the same key answers false, changes nothing and keeps the first handler |
| `Registry.MatchingAfterUnregister` | ElementaryMVVM/Services/Messenger.cs:113-114 | after Unregister, Send selects exactly what it selected before, minus the removed key |
| `Registry.MatchingAfterRegister` | ElementaryMVVM/Services/Messenger.cs:52-53 | after Register, Send selects what it selected before, plus the new key exactly when it was inserted and its token and type match |
| `Registry.FanOut` | ElementaryMVVM/Services/Messenger.cs:75-80 | when several recipients hold compatible handlers under one token, a Send on that token selects every one of their keys, so it selects at least as many entries as there are recipients |
| `Registry.KeysOfRecipients` | ElementaryMVVM/Services/Messenger.cs:120-142 | keys built from distinct recipients and one token are distinct, so there are as many keys as recipients |
| `Services.Messenger.constructor` | ElementaryMVVM/Services/Messenger.cs:18-26 | a new bus starts with an empty registry |
| `Services.Messenger.Register` | ElementaryMVVM/Services/Messenger.cs:38-54 | the answer and the new registry are those of `Registry.Register` on the old registry; on failure, or on an answer of false, the registry is unchanged |
| `Services.Messenger.Unregister` | ElementaryMVVM/Services/Messenger.cs:103-115 | the answer and the new registry are those of `Registry.Unregister` on the old registry; on failure, or on an answer of false, the registry is unchanged |
| `Services.Messenger.Send` | ElementaryMVVM/Services/Messenger.cs:64-82 | validates like `Registry.Send` and invokes nothing on failure; on success the invoked keys, as a multiset, are exactly the selected entries, each once, and the answer is true iff something was invoked; the registry is not modified |
| `ViewModels.WindowExchange` | ElementaryMVVM.Test/MVVM/ViewModels/SecondWindowViewModel.cs:24-44 | the second window's Register on "token1" answers true; the main window's string Send on "token1" (MainWindowViewModel.cs:29) answers true and reaches exactly that handler; an int Send on "token1" answers false; Unregister answers true; the next Send answers false |
| `RegistryOps.StepElsewhere` | ElementaryMVVM/Services/Messenger.cs:52-53 | a call that names another key, or passes a null recipient or token, leaves the entry under a key as it was |
| `RegistryOps.StepOnKey` | ElementaryMVVM/Services/Messenger.cs:113-114 | a call's answer and its effect on its key depend only on the entry under that key |
| `RegistryOps.KeyIsolation` | ElementaryMVVM/Services/Messenger.cs:25-26 | after any sequence of calls, the entry under each key is the one obtained by making only the calls that name that key |
| `RegistryOps.StepSize` | ElementaryMVVM/Services/Messenger.cs:53 | a call grows the registry by one exactly when it is a successful Register, shrinks it by one exactly when it is a successful Unregister, and otherwise keeps its size |
| `RegistryOps.SizeAccounting` | ElementaryMVVM/Services/Messenger.cs:25-26 | after any sequence of calls, the size is the initial size plus the successful Registers minus the successful Unregisters, so each key holds one entry |
| `RegistryOps.DistinctRegistrationsSucceed` | ElementaryMVVM/Services/Messenger.cs:53 | registrations under distinct free keys all answer true, and the registry grows by their number |
| `RegistryOps.RegistrationsOnTakenKey` | ElementaryMVVM/Services/Messenger.cs:53 | registrations under a taken key all answer false and change nothing |
| `RegistryOps.SameKeyRegistrations` | ElementaryMVVM/Services/Messenger.cs:53 | of several registrations under one free key, the first answers true, all later ones answer false, and the first handler is the one registered |

## Left out

- `BeginSend` (Messenger.cs:91-94) hands `Send` to `Task.Factory.StartNew`. Tasks and threads are not modelled; the synchronous `Send` it runs is.
- The thread safety of `ConcurrentDictionary` is not modelled. The registry is a sequential map. Concurrent registrations are modelled as the same calls made one after the other (`RegistryOps`). A `Send` racing a `Register` or `Unregister` is not modelled.
- Handler bodies are not modelled; handlers are identities. So the model does not cover a handler's side effects, an exception it throws (which would end `Send` early), or a handler that calls back into the bus while `Send` is walking the registry.
- `Services.Messenger.Send`: the message value is not passed to any model of the handler; the contract states which handlers run, not what they receive.
- `WindowService`, `ServiceLocator`, `PropertyChangedBase` and the demo view models are not part of this model. They are UI plumbing with no bus logic. The demo's bus calls appear only in `ViewModels.WindowExchange`.
- The type universe is not modelled. Which reference types convert to which is given by each descriptor's `conversions` set, not derived from class declarations.
