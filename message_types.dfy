/** The values the message bus works with: nullable reference arguments,
    the argument-validation failure, runtime message-type descriptors,
    handlers and the (recipient, token) registration key. */
module MessengerTypes {

  /** A reference argument that a caller may pass as null. */
  datatype Nullable<+T> = Null | NonNull(value: T)

  /** `ArgumentNullException`, carrying the name of the parameter it reports. */
  datatype Error = ArgumentNull(paramName: string)

  /** Either the boolean (or other) answer of an operation, or the exception it throws. */
  datatype Result<+R> = Ok(value: R) | Failure(error: Error)

  /** A runtime .NET type used as a message type. A reference type lists, in
      `conversions`, the names of the reference types it converts to by an
      implicit reference conversion (its base classes, its interfaces,
      `object`). Value types take part in no such conversion. */
  datatype MsgType =
    | ValueType(name: string)
    | ReferenceType(name: string, conversions: set<string>)

  /** Whether a delegate of runtime type `Action<stored>` passes the filter
      `OfType<Action<sent>>`. `Action<in T>` is contravariant, so besides the
      exact type, a handler for a reference type also accepts messages of every
      reference type that converts to it (an `Action<object>` passes for
      `Action<string>`). For value types the match is exact. */
  function Compatible(stored: MsgType, sent: MsgType): (b: bool)
    ensures stored == sent ==> b
    ensures stored.ValueType? || sent.ValueType? ==> (b <==> stored == sent)
    ensures b && stored != sent ==> sent.ReferenceType? && stored.name in sent.conversions
    ensures stored.ReferenceType? && sent.ReferenceType? && stored.name in sent.conversions ==> b
  {
    stored == sent
    || (stored.ReferenceType? && sent.ReferenceType? && stored.name in sent.conversions)
  }

  /** Identity of a delegate instance. */
  type HandlerId = nat

  /** A registered delegate: its identity and the parameter type of its
      runtime delegate type `Action<paramType>`. What it does when invoked is
      not modelled. */
  datatype Handler = Handler(id: HandlerId, paramType: MsgType)

  /** The registry key `RecipientAndToken`: equal iff both fields are equal. */
  datatype RecipientAndToken<R, T> = RecipientAndToken(recipient: R, token: T)
}
