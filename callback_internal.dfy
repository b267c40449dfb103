/**
 * The type-erased callback handle of winbase/functional/callback_internal.cc:
 * BindStateBase, a reference-counted bundle of function pointers, and
 * CallbackBase, a handle holding a counted reference (a scoped_refptr) to
 * one bind state or nothing.
 *
 * Function pointers are modelled by the identity of the function they point
 * to; invocation through polymorphic_invoke_ stays abstract.
 */
module CallbackInternal {
  import opened Wrappers

  /** The identity of a function a function pointer points to. */
  type FuncId = nat

  /** The is_cancelled_ pointer of a bind state. */
  datatype CancelPredicate =
    | ReturnFalse        // the file-local ReturnFalse: never cancelled
    | Predicate(fn: FuncId)

  /**
   * Calls the predicate on its bind state; `query` stands for what each
   * external predicate answers at the time of the call.
   */
  function Evaluate(p: CancelPredicate, query: FuncId -> bool): (cancelled: bool)
    ensures p == ReturnFalse ==> !cancelled
    ensures p.Predicate? ==> cancelled == query(p.fn)
  {
    match p
    case ReturnFalse => false
    case Predicate(f) => query(f)
  }

  /**
   * A bind state: the invoke trampoline, the destructor that knows the
   * concrete layout, the cancellation predicate, its thread-safe reference
   * count, and which destructor has run on it (None while it is alive).
   * holders records which handles own the counted references.
   */
  class BindStateBase {
    const polymorphicInvoke: FuncId
    const destructor: FuncId
    const isCancelled: CancelPredicate
    var refCount: nat
    var destroyedBy: Option<FuncId>
    ghost var holders: multiset<CallbackBase>

    /** The count is the number of references the handles hold. */
    ghost predicate Counted()
      reads this
    {
      refCount == |holders|
    }

    /** BindStateBase(polymorphic_invoke, destructor): never cancelled. */
    constructor (polymorphicInvoke: FuncId, destructor: FuncId)
      ensures this.polymorphicInvoke == polymorphicInvoke && this.destructor == destructor
      ensures isCancelled == ReturnFalse
      ensures refCount == 0 && destroyedBy == None && holders == multiset{} && Counted()
    {
      this.polymorphicInvoke := polymorphicInvoke;
      this.destructor := destructor;
      this.isCancelled := ReturnFalse;
      refCount := 0;
      destroyedBy := None;
      holders := multiset{};
    }

    /** BindStateBase(polymorphic_invoke, destructor, is_cancelled). */
    constructor WithCancellation(polymorphicInvoke: FuncId, destructor: FuncId,
                                 isCancelled: CancelPredicate)
      ensures this.polymorphicInvoke == polymorphicInvoke && this.destructor == destructor
      ensures this.isCancelled == isCancelled
      ensures refCount == 0 && destroyedBy == None && holders == multiset{} && Counted()
    {
      this.polymorphicInvoke := polymorphicInvoke;
      this.destructor := destructor;
      this.isCancelled := isCancelled;
      refCount := 0;
      destroyedBy := None;
      holders := multiset{};
    }

    /** The reference a scoped_refptr held by `holder` takes. */
    method AddRef(ghost holder: CallbackBase)
      requires destroyedBy == None && Counted()
      modifies this
      ensures Counted() && destroyedBy == None
      ensures refCount == old(refCount) + 1
      ensures holders == old(holders) + multiset{holder}
    {
      refCount := refCount + 1;
      holders := holders + multiset{holder};
    }

    /**
     * The reference `holder` gives up; the release that reaches zero runs
     * BindStateBaseRefCountTraits::Destruct, that is exactly when no handle
     * holds the state any more.
     */
    method Release(ghost holder: CallbackBase)
      requires destroyedBy == None && Counted() && holder in holders
      modifies this
      ensures Counted()
      ensures refCount == old(refCount) - 1
      ensures holders == old(holders) - multiset{holder}
      ensures destroyedBy == if holders == multiset{} then Some(destructor) else None
    {
      refCount := refCount - 1;
      holders := holders - multiset{holder};
      if refCount == 0 {
        Destruct(this);
      }
    }
  }

  /** BindStateBaseRefCountTraits::Destruct: runs the state's own destructor_. */
  method Destruct(bindState: BindStateBase)
    requires bindState.destroyedBy == None
    modifies bindState
    ensures bindState.destroyedBy == Some(bindState.destructor)
    ensures bindState.refCount == old(bindState.refCount)
    ensures bindState.holders == old(bindState.holders)
  {
    bindState.destroyedBy := Some(bindState.destructor);
  }

  /**
   * CallbackBase, and CallbackBaseCopyable when copyable is set: a counted
   * reference to a bind state, or null.
   */
  class CallbackBase {
    var bindState: BindStateBase?
    const copyable: bool

    /**
     * A held bind state is alive, its count is the number of references
     * held, and this handle holds one of them.
     */
    ghost predicate Valid()
      reads this, bindState
    {
      bindState != null ==>
        bindState.destroyedBy == None && bindState.Counted() && this in bindState.holders
    }

    /** A default-constructed, null callback. */
    constructor Null(copyable: bool)
      ensures Valid() && bindState == null && this.copyable == copyable
    {
      bindState := null;
      this.copyable := copyable;
    }

    /** The callback a bind operation returns: it takes one reference. */
    constructor (bindState: BindStateBase, copyable: bool)
      requires bindState.destroyedBy == None && bindState.Counted()
      modifies bindState
      ensures Valid() && this.bindState == bindState && this.copyable == copyable
      ensures bindState.refCount == old(bindState.refCount) + 1
      ensures bindState.holders == old(bindState.holders) + multiset{this}
    {
      this.bindState := bindState;
      this.copyable := copyable;
      new;
      bindState.AddRef(this);
    }

    /**
     * CallbackBase(const CallbackBaseCopyable&) and the copy constructor of
     * CallbackBaseCopyable: both handles share the bind state, which gains
     * a reference.
     */
    constructor Copy(c: CallbackBase, asCopyable: bool)
      requires c.copyable && c.Valid()
      modifies c.bindState
      ensures Valid() && c.Valid() && copyable == asCopyable
      ensures bindState == c.bindState && EqualsInternal(c)
      ensures bindState != null ==> bindState.refCount == old(c.bindState.refCount) + 1
      ensures bindState != null ==> bindState.holders == old(c.bindState.holders) + multiset{this}
    {
      bindState := c.bindState;
      copyable := asCopyable;
      new;
      if bindState != null {
        bindState.AddRef(this);
      }
    }

    /**
     * CallbackBase(CallbackBaseCopyable&&): the bind state moves to the new
     * handle with its count unchanged; the source is left null.
     */
    constructor Move(c: CallbackBase, asCopyable: bool)
      requires c.Valid()
      modifies c, c.bindState
      ensures Valid() && c.Valid() && copyable == asCopyable
      ensures bindState == old(c.bindState) && c.bindState == null
      ensures bindState != null ==> bindState.refCount == old(c.bindState.refCount)
      ensures bindState != null ==>
                bindState.holders == old(c.bindState.holders) - multiset{c} + multiset{this}
    {
      bindState := c.bindState;
      copyable := asCopyable;
      new;
      if bindState != null {
        bindState.holders := bindState.holders - multiset{c} + multiset{this};
      }
      c.bindState := null;
    }

    /**
     * operator=(const CallbackBaseCopyable&) of CallbackBase and of
     * CallbackBaseCopyable: the target takes a reference to the source's
     * bind state and gives up its own.
     */
    method AssignCopy(c: CallbackBase)
      requires c.copyable && Valid() && c.Valid()
      modifies this, bindState, c.bindState
      ensures Valid() && c.Valid() && bindState == c.bindState && c.bindState == old(c.bindState)
      ensures old(bindState) == c.bindState && bindState != null ==>
                bindState.refCount == old(bindState.refCount) &&
                bindState.holders == old(bindState.holders)
      ensures old(bindState) != c.bindState && bindState != null ==>
                bindState.refCount == old(c.bindState.refCount) + 1 &&
                bindState.holders == old(c.bindState.holders) + multiset{this}
      ensures old(bindState) != c.bindState && old(bindState) != null ==>
                old(bindState).refCount == old(bindState.refCount) - 1 &&
                old(bindState).holders == old(bindState.holders) - multiset{this} &&
                old(bindState).destroyedBy ==
                  if old(bindState).holders == multiset{} then Some(old(bindState).destructor) else None
    {
      var incoming := c.bindState;
      var outgoing := bindState;
      if incoming == outgoing {
        if incoming != null {
          incoming.AddRef(this);
          incoming.Release(this);
        }
      } else {
        if incoming != null {
          incoming.AddRef(this);
        }
        bindState := incoming;
        if outgoing != null {
          outgoing.Release(this);
        }
      }
    }

    /**
     * operator=(CallbackBase&&) and operator=(CallbackBaseCopyable&&): the
     * target takes the source's reference and gives up its own; the source
     * is left null.
     */
    method AssignMove(c: CallbackBase)
      requires Valid() && c.Valid()
      modifies this, c, bindState, c.bindState
      ensures Valid() && c.Valid() && bindState == old(c.bindState)
      ensures c != this ==> c.bindState == null
      ensures c != this && old(bindState) != null ==>
                old(bindState).refCount == old(bindState.refCount) - 1 &&
                old(bindState).destroyedBy ==
                  if old(bindState).holders == multiset{} then Some(old(bindState).destructor) else None
      ensures c != this && old(bindState) != null && old(bindState) != bindState ==>
                old(bindState).holders == old(bindState.holders) - multiset{this}
      ensures c != this && old(bindState) != null && old(bindState) == bindState ==>
                bindState.holders == old(bindState.holders) - multiset{c}
      ensures c != this && bindState != null && bindState != old(bindState) ==>
                bindState.refCount == old(c.bindState.refCount) &&
                bindState.holders == old(c.bindState.holders) - multiset{c} + multiset{this}
    {
      var incoming := c.bindState;
      if incoming != null {
        incoming.holders := incoming.holders - multiset{c} + multiset{this};
      }
      c.bindState := null;
      var outgoing := bindState;
      bindState := incoming;
      if outgoing != null {
        outgoing.Release(this);
      }
    }

    /** Reset: the handle becomes null, releasing its reference. */
    method Reset()
      requires Valid()
      modifies this, bindState
      ensures Valid() && bindState == null
      ensures old(bindState) != null ==>
                old(bindState).refCount == old(bindState.refCount) - 1 &&
                old(bindState).holders == old(bindState.holders) - multiset{this} &&
                old(bindState).destroyedBy ==
                  if old(bindState).holders == multiset{} then Some(old(bindState).destructor) else None
    {
      var outgoing := bindState;
      bindState := null;
      if outgoing != null {
        outgoing.Release(this);
      }
    }

    /** IsCancelled: the held bind state's predicate, evaluated on it. */
    function IsCancelled(query: FuncId -> bool): (cancelled: bool)
      reads this, bindState
      requires bindState != null
      ensures bindState.isCancelled == ReturnFalse ==> !cancelled
      ensures bindState.isCancelled.Predicate? ==> cancelled == query(bindState.isCancelled.fn)
    {
      Evaluate(bindState.isCancelled, query)
    }

    /** EqualsInternal: identity of the held bind state. */
    function EqualsInternal(other: CallbackBase): (equal: bool)
      reads this, other
      ensures bindState == null && other.bindState == null ==> equal
      ensures equal ==> (bindState == null <==> other.bindState == null)
      ensures bindState != null && other.bindState != null ==>
                (equal <==> bindState == other.bindState)
    {
      bindState == other.bindState
    }
  }

  /**
   * Two distinct handles sharing a bind state: resetting one leaves the
   * other valid, still equal to nothing but its own state, and the state
   * alive; the state dies only with the last holder.
   */
  method SharerSurvivesReset(a: CallbackBase, b: CallbackBase)
    requires a != b && a.Valid() && b.Valid() && a.bindState != null && a.bindState == b.bindState
    modifies a, a.bindState
    ensures b.Valid() && b.bindState == old(b.bindState)
    ensures b.bindState.destroyedBy == None && b.bindState.refCount == old(b.bindState.refCount) - 1
  {
    ghost var state := a.bindState;
    a.Reset();
    assert b in state.holders;
  }

  /**
   * Resetting every holder of a bind state one by one destroys it, with the
   * destructor it was built with, at the last Reset and not before.
   */
  method ResetAll(hs: seq<CallbackBase>, state: BindStateBase)
    requires forall i :: 0 <= i < |hs| ==> hs[i].bindState == state
    requires forall i, j :: 0 <= i < j < |hs| ==> hs[i] != hs[j]
    requires multiset(hs) == state.holders && hs != []
    requires forall i :: 0 <= i < |hs| ==> hs[i].Valid()
    modifies state, set i | 0 <= i < |hs| :: hs[i]
    ensures state.destroyedBy == Some(state.destructor) && state.refCount == 0
  {
    var k := 0;
    while k < |hs|
      invariant 0 <= k <= |hs|
      invariant forall i :: k <= i < |hs| ==> hs[i].bindState == state
      invariant state.holders == multiset(hs[k..]) && state.Counted()
      invariant state.destroyedBy == if k < |hs| then None else Some(state.destructor)
    {
      var h := hs[k];
      assert hs[k..] == [h] + hs[k + 1..];
      assert h.Valid();
      ghost var later := hs[k + 1..];
      assert forall x :: x in later ==> x != h && x.bindState == state;
      h.Reset();
      assert forall x :: x in later ==> x.bindState == state;
      k := k + 1;
    }
  }
}
