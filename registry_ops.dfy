/** Sequences of Register and Unregister calls on one registry: each key's
    entry depends only on the calls made with that key, the registry grows by
    one per successful Register and shrinks by one per successful Unregister,
    and of several registrations under one free key exactly the first succeeds. */
module RegistryOps {
  import opened MessengerTypes
  import opened Registry

  /** One call on the bus that may change the registry. */
  datatype Op<R, T> =
    | RegisterOp(recipient: Nullable<R>, token: Nullable<T>, action: Nullable<Handler>)
    | UnregisterOp(recipient: Nullable<R>, token: Nullable<T>)

  /** The key a call names, when both its recipient and its token are non-null. */
  function KeyOf<R, T>(op: Op<R, T>): Nullable<Key<R, T>> {
    if op.recipient.NonNull? && op.token.NonNull? then NonNull(RecipientAndToken(op.recipient.value, op.token.value))
    else Null
  }

  function Step<R(==), T(==)>(reg: Registry<R, T>, op: Op<R, T>): (Result<bool>, Registry<R, T>) {
    match op
    case RegisterOp(recipient, token, action) => Register(reg, recipient, token, action)
    case UnregisterOp(recipient, token) => Unregister(reg, recipient, token)
  }

  /** The registry after the calls `ops`, made one after the other. */
  function Run<R(==), T(==)>(reg: Registry<R, T>, ops: seq<Op<R, T>>): Registry<R, T>
    decreases |ops|
  {
    if ops == [] then reg else Run(Step(reg, ops[0]).1, ops[1..])
  }

  /** The answers of the calls `ops`, made one after the other. */
  function Results<R(==), T(==)>(reg: Registry<R, T>, ops: seq<Op<R, T>>): (rs: seq<Result<bool>>)
    ensures |rs| == |ops|
    decreases |ops|
  {
    if ops == [] then [] else [Step(reg, ops[0]).0] + Results(Step(reg, ops[0]).1, ops[1..])
  }

  /** How many of the calls `ops` were Registers that answered true. */
  function Added<R(==), T(==)>(reg: Registry<R, T>, ops: seq<Op<R, T>>): nat
    decreases |ops|
  {
    if ops == [] then 0
    else (if ops[0].RegisterOp? && Step(reg, ops[0]).0 == Ok(true) then 1 else 0) + Added(Step(reg, ops[0]).1, ops[1..])
  }

  /** How many of the calls `ops` were Unregisters that answered true. */
  function Removed<R(==), T(==)>(reg: Registry<R, T>, ops: seq<Op<R, T>>): nat
    decreases |ops|
  {
    if ops == [] then 0
    else (if ops[0].UnregisterOp? && Step(reg, ops[0]).0 == Ok(true) then 1 else 0) + Removed(Step(reg, ops[0]).1, ops[1..])
  }

  /** The calls of `ops` that name key `k`, in their order. */
  function OnKey<R(==), T(==)>(ops: seq<Op<R, T>>, k: Key<R, T>): seq<Op<R, T>>
    decreases |ops|
  {
    if ops == [] then []
    else (if KeyOf(ops[0]) == NonNull(k) then [ops[0]] else []) + OnKey(ops[1..], k)
  }

  /** Two registries hold the same entry, or none, under `k`. */
  predicate SameEntry<R(==), T(==)>(a: Registry<R, T>, b: Registry<R, T>, k: Key<R, T>) {
    (k in a <==> k in b) && (k in a ==> a[k] == b[k])
  }

  /** A call that names another key (or none) leaves the entry under `k` as it was. */
  lemma StepElsewhere<R, T>(reg: Registry<R, T>, op: Op<R, T>, k: Key<R, T>)
    requires KeyOf(op) != NonNull(k)
    ensures SameEntry(Step(reg, op).1, reg, k)
  {
  }

  /** A call on `k` does the same to `k` in two registries that agree on `k`,
      and answers the same in both. */
  lemma StepOnKey<R, T>(a: Registry<R, T>, b: Registry<R, T>, op: Op<R, T>, k: Key<R, T>)
    requires KeyOf(op) == NonNull(k) && SameEntry(a, b, k)
    ensures SameEntry(Step(a, op).1, Step(b, op).1, k)
    ensures Step(a, op).0 == Step(b, op).0
  {
  }

  /** Keys are independent: the entry under `k` after any calls is the entry
      obtained by making only the calls that name `k`. */
  lemma {:induction false} KeyIsolation<R, T>(a: Registry<R, T>, b: Registry<R, T>, ops: seq<Op<R, T>>, k: Key<R, T>)
    requires SameEntry(a, b, k)
    ensures SameEntry(Run(a, ops), Run(b, OnKey(ops, k)), k)
    decreases |ops|
  {
    if ops != [] {
      var op := ops[0];
      if KeyOf(op) == NonNull(k) {
        assert OnKey(ops, k) == [op] + OnKey(ops[1..], k);
        StepOnKey(a, b, op, k);
        KeyIsolation(Step(a, op).1, Step(b, op).1, ops[1..], k);
      } else {
        assert OnKey(ops, k) == OnKey(ops[1..], k);
        StepElsewhere(a, op, k);
        KeyIsolation(Step(a, op).1, b, ops[1..], k);
      }
    }
  }

  /** One call changes the size of the registry by one exactly when it
      succeeds: up for a Register, down for an Unregister. */
  lemma StepSize<R, T>(reg: Registry<R, T>, op: Op<R, T>)
    ensures var (res, next) := Step(reg, op);
            |next| + (if op.UnregisterOp? && res == Ok(true) then 1 else 0)
              == |reg| + (if op.RegisterOp? && res == Ok(true) then 1 else 0)
  {
  }

  /** The registry holds one entry per key, so over any calls its size moves
      by exactly one per successful Register and per successful Unregister,
      and by nothing else. */
  lemma {:induction false} SizeAccounting<R, T>(reg: Registry<R, T>, ops: seq<Op<R, T>>)
    ensures |Run(reg, ops)| + Removed(reg, ops) == |reg| + Added(reg, ops)
    decreases |ops|
  {
    if ops != [] {
      StepSize(reg, ops[0]);
      SizeAccounting(Step(reg, ops[0]).1, ops[1..]);
    }
  }

  /** A well-formed registration: recipient, token and handler all non-null. */
  predicate ValidRegistration<R, T>(op: Op<R, T>) {
    op.RegisterOp? && op.recipient.NonNull? && op.token.NonNull? && op.action.NonNull?
  }

  /** Registrations under pairwise distinct keys that are all absent at
      first all succeed, and the registry grows by their number. */
  lemma {:induction false} DistinctRegistrationsSucceed<R, T>(reg: Registry<R, T>, ops: seq<Op<R, T>>)
    requires forall i :: 0 <= i < |ops| ==> ValidRegistration(ops[i]) && KeyOf(ops[i]).value !in reg
    requires forall i, j :: 0 <= i < j < |ops| ==> KeyOf(ops[i]) != KeyOf(ops[j])
    ensures forall i :: 0 <= i < |ops| ==> Results(reg, ops)[i] == Ok(true)
    ensures |Run(reg, ops)| == |reg| + |ops|
    decreases |ops|
  {
    if ops != [] {
      var next := Step(reg, ops[0]).1;
      assert next == reg[KeyOf(ops[0]).value := ops[0].action.value];
      forall i | 0 <= i < |ops[1..]|
        ensures ValidRegistration(ops[1..][i]) && KeyOf(ops[1..][i]).value !in next
      {
        assert KeyOf(ops[0]) != KeyOf(ops[i + 1]);
      }
      DistinctRegistrationsSucceed(next, ops[1..]);
      forall i | 0 <= i < |ops|
        ensures Results(reg, ops)[i] == Ok(true)
      {
        if i > 0 {
          assert Results(reg, ops)[i] == Results(next, ops[1..])[i - 1];
        }
      }
    }
  }

  /** Registrations under a key that is already taken all answer false and
      change nothing. */
  lemma {:induction false} RegistrationsOnTakenKey<R, T>(reg: Registry<R, T>, ops: seq<Op<R, T>>, k: Key<R, T>)
    requires k in reg
    requires forall i :: 0 <= i < |ops| ==> ValidRegistration(ops[i]) && KeyOf(ops[i]) == NonNull(k)
    ensures forall i :: 0 <= i < |ops| ==> Results(reg, ops)[i] == Ok(false)
    ensures Run(reg, ops) == reg
    decreases |ops|
  {
    if ops != [] {
      assert Step(reg, ops[0]) == (Ok(false), reg);
      RegistrationsOnTakenKey(reg, ops[1..], k);
      forall i | 0 <= i < |ops|
        ensures Results(reg, ops)[i] == Ok(false)
      {
        if i > 0 {
          assert Results(reg, ops)[i] == Results(reg, ops[1..])[i - 1];
        }
      }
    }
  }

  /** Of several registrations under one free key exactly the first
      succeeds, and its handler is the one that stays registered. */
  lemma SameKeyRegistrations<R, T>(reg: Registry<R, T>, ops: seq<Op<R, T>>, k: Key<R, T>)
    requires k !in reg && |ops| > 0
    requires forall i :: 0 <= i < |ops| ==> ValidRegistration(ops[i]) && KeyOf(ops[i]) == NonNull(k)
    ensures Results(reg, ops)[0] == Ok(true)
    ensures forall i :: 1 <= i < |ops| ==> Results(reg, ops)[i] == Ok(false)
    ensures ValidRegistration(ops[0]) && Run(reg, ops) == reg[k := ops[0].action.value]
  {
    var next := Step(reg, ops[0]).1;
    assert next == reg[k := ops[0].action.value];
    RegistrationsOnTakenKey(next, ops[1..], k);
    forall i | 1 <= i < |ops|
      ensures Results(reg, ops)[i] == Ok(false)
    {
      assert Results(reg, ops)[i] == Results(next, ops[1..])[i - 1];
    }
  }
}
