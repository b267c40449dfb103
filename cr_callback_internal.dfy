/**
 * The crbase port of callback_internal.h: its BindStateBase (a reference
 * count and a destructor pointer), CallbackBase::is_null, and the
 * compile-time machinery that decides how a bound argument is stored inside
 * a bind state and forwarded to the target function (IsMoveOnlyType,
 * CallbackParamTraits, CallbackForward).
 *
 * C++ types are described by the TypeDesc datatype and the template
 * specialisations become functions over it.
 */
module CrCallbackInternal {

  /** The identity of a function a function pointer points to. */
  type FuncId = nat

  /** BindStateBase: a reference count and the destructor of the concrete state. */
  class BindStateBase {
    var refCount: nat
    const destructor: FuncId

    constructor (destructor: FuncId)
      ensures refCount == 0 && this.destructor == destructor
    {
      refCount := 0;
      this.destructor := destructor;
    }
  }

  /** CallbackBase: the held bind state (or null) and the invoke trampoline. */
  class CallbackBase {
    var bindState: BindStateBase?
    var polymorphicInvoke: FuncId

    /** is_null: the callback refers to no bind state. */
    function IsNull(): (r: bool)
      reads this
      ensures r <==> bindState == null
    {
      bindState == null
    }
  }

  // ---------------------------------------------------------------------
  // Argument types

  /** The C++ types a bound argument can have. */
  datatype TypeDesc =
    | Named(name: string, moveOnlySentinel: bool)  // a class or fundamental type;
                                                    // sentinel: has MoveOnlyTypeForCPP03
    | Const(of: TypeDesc)                           // const T
    | LRef(to: TypeDesc)                            // T&
    | Array(elem: TypeDesc, n: nat)                 // T[n]
    | UnboundedArray(elem: TypeDesc)                // T[]
    | UniquePtr(pointee: TypeDesc)                  // std::unique_ptr<T>
    | Pointer(pointee: TypeDesc)                    // T*

  /**
   * The types C++ can form in this notation: const applies to a non-const
   * object type that is not an array (const T[n] is written as an array of
   * const T), there are no references to references, and array elements
   * are objects.
   */
  predicate WellFormed(t: TypeDesc)
  {
    match t
    case Named(_, _) => true
    case Const(x) => !x.Const? && !x.LRef? && !x.Array? && !x.UnboundedArray? && WellFormed(x)
    case LRef(x) => !x.LRef? && WellFormed(x)
    case Array(e, _) => !e.LRef? && WellFormed(e)
    case UnboundedArray(e) => !e.LRef? && WellFormed(e)
    case UniquePtr(x) => !x.LRef? && WellFormed(x)
    case Pointer(x) => !x.LRef? && WellFormed(x)
  }

  /**
   * const T: const on an already const type changes nothing, and a const
   * array is an array of const elements.
   */
  function AddConst(t: TypeDesc): (r: TypeDesc)
    requires WellFormed(t) && !t.LRef?
    ensures WellFormed(r) && !r.LRef?
  {
    match t
    case Const(_) => t
    case Array(e, n) => Array(AddConst(e), n)
    case UnboundedArray(e) => UnboundedArray(AddConst(e))
    case _ => Const(t)
  }

  /**
   * Whether typename T::MoveOnlyTypeForCPP03 names a member: only class
   * types, possibly const-qualified, can have one.
   */
  function HasMoveOnlySentinel(t: TypeDesc): bool
  {
    match t
    case Named(_, sentinel) => sentinel
    case Const(x) => HasMoveOnlySentinel(x)
    case _ => false
  }

  /**
   * IsMoveOnlyType<T>: the sentinel member on a non-const type, or a
   * std::unique_ptr<T> (the specialisation does not match a const
   * unique_ptr).
   */
  predicate IsMoveOnlyType(t: TypeDesc)
    ensures IsMoveOnlyType(t) <==> t.UniquePtr? || (t.Named? && t.moveOnlySentinel)
  {
    t.UniquePtr? || (HasMoveOnlySentinel(t) && !t.Const?)
  }

  /** The two member types of CallbackParamTraits<T>. */
  datatype ParamTraits = ParamTraits(storage: TypeDesc, forward: TypeDesc)

  /**
   * CallbackParamTraits<T>: CallbackParamTraitsForMoveOnlyType<T> when T is
   * move-only, otherwise the matching CallbackParamTraitsForNonMoveOnlyType
   * specialisation (T&, T[n], T[] or the primary template).
   */
  function CallbackParamTraits(t: TypeDesc): (r: ParamTraits)
    requires WellFormed(t)
    ensures WellFormed(r.storage) && WellFormed(r.forward)
    ensures !r.storage.LRef?
    ensures IsMoveOnlyType(t) ==> r.storage == t && r.forward == t
    ensures IsMoveOnlyType(t) <==> !r.forward.LRef? && !r.forward.Pointer?
    ensures t.LRef? ==> r.storage == t.to && r.forward == t
    ensures t.Array? ==> r.storage == r.forward == Pointer(AddConst(t.elem))
    ensures t.UnboundedArray? ==> r.storage == r.forward == Pointer(AddConst(t.elem))
    ensures !IsMoveOnlyType(t) && !t.LRef? && !t.Array? && !t.UnboundedArray? ==>
              r.storage == t && r.forward == LRef(AddConst(t))
  {
    if IsMoveOnlyType(t) then
      ParamTraits(t, t)
    else if t.LRef? then
      ParamTraits(t.to, t)
    else if t.Array? || t.UnboundedArray? then
      ParamTraits(Pointer(AddConst(t.elem)), Pointer(AddConst(t.elem)))
    else
      ParamTraits(t, LRef(AddConst(t)))
  }

  /** A fixed-size and an unbounded array of the same element behave alike. */
  lemma ArraysDecayAlike(elem: TypeDesc, n: nat)
    requires WellFormed(elem) && !elem.LRef?
    ensures CallbackParamTraits(Array(elem, n)) == CallbackParamTraits(UnboundedArray(elem))
    ensures CallbackParamTraits(Array(elem, n)).forward.Pointer?
  {
  }

  /** A const type is never move-only: it is stored as is and forwarded by const reference. */
  lemma ConstRemovesMoveOnly(t: TypeDesc)
    requires WellFormed(Const(t))
    ensures !IsMoveOnlyType(Const(t))
    ensures CallbackParamTraits(Const(t)).forward == LRef(Const(t))
  {
  }

  // ---------------------------------------------------------------------
  // CallbackForward

  /** A stored argument: a value, or what is left after a destructive move. */
  datatype Slot<V> = Holds(value: V) | MovedFrom

  /** A bound argument's storage inside a bind state. */
  class StoredArg<V> {
    const argType: TypeDesc
    var slot: Slot<V>

    constructor (argType: TypeDesc, value: V)
      ensures this.argType == argType && slot == Holds(value)
    {
      this.argType := argType;
      slot := Holds(value);
    }
  }

  /**
   * CallbackForward(t): for a type that is not move-only, t itself (the
   * returned reference is modelled by the value it refers to) and t is
   * left as it was; for a move-only type, std::move(t), which leaves t
   * moved-from.
   */
  method CallbackForward<V>(arg: StoredArg<V>) returns (forwarded: Slot<V>)
    modifies arg
    ensures forwarded == old(arg.slot)
    ensures arg.slot == if IsMoveOnlyType(arg.argType) then MovedFrom else old(arg.slot)
  {
    forwarded := arg.slot;
    if IsMoveOnlyType(arg.argType) {
      arg.slot := MovedFrom;
    }
  }

  /**
   * Forwarding the same stored argument twice: a copyable argument yields
   * its value both times, a move-only one only the first time.
   */
  method ForwardTwice<V>(arg: StoredArg<V>) returns (first: Slot<V>, second: Slot<V>)
    modifies arg
    ensures first == old(arg.slot)
    ensures !IsMoveOnlyType(arg.argType) ==> second == first
    ensures IsMoveOnlyType(arg.argType) ==> second == MovedFrom
  {
    first := CallbackForward(arg);
    second := CallbackForward(arg);
  }
}
