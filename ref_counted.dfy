/**
 * Reference counting of winbase/memory/ref_counted.h: the non-atomic
 * RefCountedBase with its uint32_t counter, the atomic
 * RefCountedThreadSafeBase, the RefCounted / RefCountedThreadSafe wrappers
 * that call Traits::Destruct on the release that reaches zero, and
 * RefCountedData.
 *
 * A pure trace model (Life, Step, Run, Legal) states what any sequence of
 * AddRef / Release calls does to a RefCounted object; the RefCounted class
 * is proved to follow it step by step.
 */
module RefCounting {

  /** Number of values of the uint32_t ref_count_ of RefCountedBase. */
  const Uint32Limit: int := 0x1_0000_0000

  /** The kRefCountPreference tag a ref-counted type selects. */
  datatype StartTag = StartRefCountFromZero | StartRefCountFromOne

  /** The count a freshly constructed object starts from. */
  function InitialCount(tag: StartTag): nat
  {
    match tag
    case StartRefCountFromZero => 0
    case StartRefCountFromOne => 1
  }

  /** ++ref_count_ on a uint32_t: wraps to 0 after 0xFFFFFFFF. */
  function Incremented(count: nat): nat
  {
    (count + 1) % Uint32Limit
  }

  /** --ref_count_ on a uint32_t: wraps to 0xFFFFFFFF below 0. */
  function Decremented(count: nat): nat
  {
    (count - 1) % Uint32Limit
  }

  // ---------------------------------------------------------------------
  // Trace model of a RefCounted<T> object

  /** What an owner may do to a counted object. */
  datatype RefOp = AddRef | Release

  /**
   * The lifetime state of a RefCounted<T>: its counter and how many times
   * Traits::Destruct has run on it.
   */
  datatype Life = Life(count: nat, destructions: nat)

  /** The effect of one AddRef or Release of RefCounted<T>. */
  function Step(s: Life, op: RefOp): Life
  {
    match op
    case AddRef => s.(count := Incremented(s.count))
    case Release =>
      var c := Decremented(s.count);
      Life(c, if c == 0 then s.destructions + 1 else s.destructions)
  }

  /**
   * What callers of RefCounted<T> must respect: the object is still alive,
   * a Release is matched by a reference held, and the counter never
   * overflows.
   */
  predicate Allowed(s: Life, op: RefOp)
  {
    s.destructions == 0 && s.count < Uint32Limit &&
    match op
    case AddRef => s.count + 1 < Uint32Limit
    case Release => 1 <= s.count
  }

  /** The state after performing ops in order. */
  function Run(s: Life, ops: seq<RefOp>): Life
    decreases |ops|
  {
    if ops == [] then s else Run(Step(s, ops[0]), ops[1..])
  }

  /** Every operation of ops is allowed in the state it is performed in. */
  predicate Legal(s: Life, ops: seq<RefOp>)
    decreases |ops|
  {
    ops == [] || (Allowed(s, ops[0]) && Legal(Step(s, ops[0]), ops[1..]))
  }

  /** The number of occurrences of op in ops. */
  function Occurrences(ops: seq<RefOp>, op: RefOp): nat
  {
    if ops == [] then 0
    else (if ops[0] == op then 1 else 0) + Occurrences(ops[1..], op)
  }

  /** n copies of op. */
  function Repeat(op: RefOp, n: nat): (ops: seq<RefOp>)
    ensures |ops| == n
    ensures forall k :: 0 <= k < n ==> ops[k] == op
  {
    if n == 0 then [] else [op] + Repeat(op, n - 1)
  }

  /** Release destroys the object exactly on the transition from 1 to 0. */
  lemma ReleaseDestructsOnlyFromOne(s: Life)
    requires Allowed(s, Release)
    ensures Step(s, Release).count == s.count - 1
    ensures Step(s, Release).destructions == (if s.count == 1 then 1 else 0)
  {
  }

  /** AddRef raises the count by exactly one and never destroys. */
  lemma AddRefRaisesByOne(s: Life)
    requires Allowed(s, AddRef)
    ensures Step(s, AddRef) == Life(s.count + 1, s.destructions)
  {
  }

  /** Run distributes over concatenation of traces. */
  lemma {:induction false} RunAppend(s: Life, ops1: seq<RefOp>, ops2: seq<RefOp>)
    ensures Run(s, ops1 + ops2) == Run(Run(s, ops1), ops2)
    decreases |ops1|
  {
    if ops1 != [] {
      assert (ops1 + ops2)[1..] == ops1[1..] + ops2;
      RunAppend(Step(s, ops1[0]), ops1[1..], ops2);
    } else {
      assert ops1 + ops2 == ops2;
    }
  }

  /** Legality of a concatenation is legality of both halves in turn. */
  lemma {:induction false} LegalAppend(s: Life, ops1: seq<RefOp>, ops2: seq<RefOp>)
    ensures Legal(s, ops1 + ops2) <==> Legal(s, ops1) && Legal(Run(s, ops1), ops2)
    decreases |ops1|
  {
    if ops1 != [] {
      assert (ops1 + ops2)[1..] == ops1[1..] + ops2;
      LegalAppend(Step(s, ops1[0]), ops1[1..], ops2);
    } else {
      assert ops1 + ops2 == ops2;
    }
  }

  /**
   * Over any legal trace of a live object the count is the initial count
   * plus the AddRefs minus the Releases, the object is destroyed at most
   * once, and it is destroyed exactly when the trace ends with the Release
   * that took the count to zero.
   */
  lemma {:induction false} LegalTraceLife(s: Life, ops: seq<RefOp>)
    requires s.destructions == 0 && s.count < Uint32Limit
    requires Legal(s, ops)
    ensures Run(s, ops).count == s.count + Occurrences(ops, AddRef) - Occurrences(ops, Release)
    ensures Run(s, ops).destructions <= 1
    ensures Run(s, ops).destructions == 1 <==>
              (ops != [] && ops[|ops| - 1] == Release && Run(s, ops).count == 0)
    decreases |ops|
  {
    if ops != [] {
      var s' := Step(s, ops[0]);
      if s'.destructions == 1 {
        // Nothing is allowed on a destroyed object, so this was the last op.
        assert ops[1..] == [];
      } else {
        LegalTraceLife(s', ops[1..]);
        if ops[1..] != [] {
          assert ops[|ops| - 1] == ops[1..][|ops[1..]| - 1];
        } else {
          assert s'.count != 0 || ops[0] == AddRef;
        }
      }
    }
  }

  /**
   * An adopted object (count 1) that gains n more references and then has
   * all n + 1 of them released is destroyed exactly once, on the last
   * release, and not before.
   */
  lemma {:induction false} AdoptedCopiesDestroyOnLastRelease(n: nat)
    requires n + 1 < Uint32Limit
    ensures Legal(Life(1, 0), Repeat(AddRef, n) + Repeat(Release, n + 1))
    ensures Run(Life(1, 0), Repeat(AddRef, n) + Repeat(Release, n + 1)) == Life(0, 1)
    ensures forall k :: 0 <= k <= n ==>
              Run(Life(1, 0), Repeat(AddRef, n) + Repeat(Release, k)) == Life(n + 1 - k, 0)
  {
    AddRefsFrom(1, n);
    var top := Life(n + 1, 0);
    forall k | 0 <= k <= n + 1
      ensures Legal(top, Repeat(Release, k))
      ensures Run(top, Repeat(Release, k)) ==
                if k == n + 1 then Life(0, 1) else Life(n + 1 - k, 0)
    {
      ReleasesFrom(n + 1, k);
    }
    forall k | 0 <= k <= n + 1
      ensures Run(Life(1, 0), Repeat(AddRef, n) + Repeat(Release, k)) ==
                Run(top, Repeat(Release, k))
    {
      RunAppend(Life(1, 0), Repeat(AddRef, n), Repeat(Release, k));
    }
    LegalAppend(Life(1, 0), Repeat(AddRef, n), Repeat(Release, n + 1));
  }

  /** n AddRefs from count c are legal and reach c + n. */
  lemma {:induction false} AddRefsFrom(c: nat, n: nat)
    requires c + n < Uint32Limit
    ensures Legal(Life(c, 0), Repeat(AddRef, n))
    ensures Run(Life(c, 0), Repeat(AddRef, n)) == Life(c + n, 0)
    decreases n
  {
    if n > 0 {
      assert Repeat(AddRef, n)[1..] == Repeat(AddRef, n - 1);
      AddRefsFrom(c + 1, n - 1);
    }
  }

  /** k <= c Releases from count c are legal; the c-th destroys. */
  lemma {:induction false} ReleasesFrom(c: nat, k: nat)
    requires k <= c < Uint32Limit
    ensures Legal(Life(c, 0), Repeat(Release, k))
    ensures Run(Life(c, 0), Repeat(Release, k)) ==
              if k == c && c > 0 then Life(0, 1) else Life(c - k, 0)
  {
    if k > 0 {
      var ops := Repeat(Release, k);
      assert ops[0] == Release && ops[1..] == Repeat(Release, k - 1);
      assert Decremented(c) == c - 1;
      assert Step(Life(c, 0), Release) == Life(c - 1, if c == 1 then 1 else 0);
      if c == 1 {
        assert ops[1..] == [];
      } else {
        ReleasesFrom(c - 1, k - 1);
      }
    }
  }

  // ---------------------------------------------------------------------
  // subtle::RefCountedBase

  /** The non-thread-safe counter base with its uint32_t ref_count_. */
  class RefCountedBase {
    var refCount: nat

    ghost predicate Valid()
      reads this
    {
      refCount < Uint32Limit
    }

    /** RefCountedBase(StartRefCountFromZeroTag) / (StartRefCountFromOneTag). */
    constructor (tag: StartTag)
      ensures Valid()
      ensures refCount == 0 <==> tag == StartRefCountFromZero
      ensures refCount == 1 <==> tag == StartRefCountFromOne
    {
      refCount := InitialCount(tag);
    }

    /** HasOneRef: exactly the state in which the next Release reports zero. */
    function HasOneRef(): (r: bool)
      reads this
      requires Valid()
      ensures r <==> Decremented(refCount) == 0
    {
      refCount == 1
    }

    /** AddRef / AddRefImpl: ++ref_count_. */
    method AddRef()
      requires Valid()
      modifies this
      ensures Valid()
      ensures refCount == Incremented(old(refCount))
      ensures old(refCount) + 1 < Uint32Limit ==> refCount == old(refCount) + 1
    {
      refCount := (refCount + 1) % Uint32Limit;
    }

    /** Release: --ref_count_; true when the object should self-delete. */
    method Release() returns (shouldDelete: bool)
      requires Valid()
      modifies this
      ensures Valid()
      ensures refCount == Decremented(old(refCount))
      ensures old(refCount) >= 1 ==> refCount == old(refCount) - 1
      ensures shouldDelete <==> old(refCount) == 1
    {
      refCount := (refCount - 1) % Uint32Limit;
      shouldDelete := refCount == 0;
    }

    /**
     * IsOnValidSequence: with the sequence checker compiled out every
     * access is reported safe.
     */
    function IsOnValidSequence(): (r: bool)
      reads this
      ensures r
    {
      true
    }
  }

  /**
   * RefCounted<T, Traits>: a RefCountedBase whose Release calls
   * Traits::Destruct when the base reports zero. destructions counts the
   * calls of Traits::Destruct.
   */
  class RefCounted {
    const base: RefCountedBase
    ghost var destructions: nat

    ghost function State(): Life
      reads this, base
    {
      Life(base.refCount, destructions)
    }

    ghost predicate Valid()
      reads this, base
    {
      base.Valid() && destructions <= 1
    }

    /** RefCounted(): the base starts from T::kRefCountPreference. */
    constructor (preference: StartTag)
      ensures Valid() && fresh(base)
      ensures State() == Life(InitialCount(preference), 0)
    {
      base := new RefCountedBase(preference);
      destructions := 0;
    }

    /** Traits::Destruct(this): the object is deleted. */
    method Destruct()
      requires Valid() && destructions == 0
      modifies this
      ensures Valid() && destructions == 1
    {
      destructions := destructions + 1;
    }

    method AddRef()
      requires Valid() && destructions == 0
      modifies base
      ensures Valid()
      ensures State() == Step(old(State()), RefOp.AddRef)
    {
      base.AddRef();
    }

    /** Release: Traits::Destruct runs exactly when the base reports zero. */
    method Release()
      requires Valid() && destructions == 0
      modifies this, base
      ensures Valid()
      ensures State() == Step(old(State()), RefOp.Release)
      ensures destructions == 1 <==> old(base.refCount) == 1
    {
      var shouldDelete := base.Release();
      if shouldDelete {
        Destruct();
      }
    }
  }

  // ---------------------------------------------------------------------
  // subtle::RefCountedThreadSafeBase

  /**
   * The thread-safe counter base. Its AtomicRefCount is modelled by an
   * unbounded integer and its atomic updates as sequential steps.
   */
  class RefCountedThreadSafeBase {
    var refCount: int

    constructor (tag: StartTag)
      ensures refCount == InitialCount(tag)
    {
      refCount := InitialCount(tag);
    }

    /** AddRef / AddRefImpl: ref_count_.Increment(). */
    method AddRef()
      modifies this
      ensures refCount == old(refCount) + 1
    {
      refCount := refCount + 1;
    }

    /**
     * Release / ReleaseImpl: true exactly when the decrement leaves the
     * count at zero.
     */
    method Release() returns (shouldDelete: bool)
      modifies this
      ensures refCount == old(refCount) - 1
      ensures shouldDelete <==> old(refCount) == 1
    {
      refCount := refCount - 1;
      var nonZero := refCount != 0;
      if !nonZero {
        return true;
      }
      return false;
    }
  }

  /** RefCountedThreadSafe<T, Traits>. */
  class RefCountedThreadSafe {
    const base: RefCountedThreadSafeBase
    ghost var destructions: nat

    constructor (preference: StartTag)
      ensures fresh(base) && base.refCount == InitialCount(preference)
      ensures destructions == 0
    {
      base := new RefCountedThreadSafeBase(preference);
      destructions := 0;
    }

    method AddRef()
      requires destructions == 0
      modifies base
      ensures base.refCount == old(base.refCount) + 1
    {
      base.AddRef();
    }

    /** Release: Traits::Destruct runs exactly when ReleaseImpl reports zero. */
    method Release()
      requires destructions == 0
      modifies this, base
      ensures base.refCount == old(base.refCount) - 1
      ensures destructions == if base.refCount == 0 then 1 else 0
    {
      var shouldDelete := base.Release();
      if shouldDelete {
        destructions := destructions + 1;
      }
    }
  }

  /**
   * RefCountedData<T>: a value held in a thread-safe ref-counted box. Its
   * kRefCountPreference is the default, start from zero.
   */
  class RefCountedData<T> {
    var data: T
    const refs: RefCountedThreadSafe

    /**
     * RefCountedData(): data() is value-initialised; Dafny has no value
     * initialisation, so the caller supplies T's value-initialised value.
     */
    constructor Default(valueInitialized: T)
      ensures data == valueInitialized
      ensures fresh(refs) && fresh(refs.base) && refs.base.refCount == 0 && refs.destructions == 0
    {
      data := valueInitialized;
      refs := new RefCountedThreadSafe(StartRefCountFromZero);
    }

    /** RefCountedData(const T&) and RefCountedData(T&&). */
    constructor (inValue: T)
      ensures data == inValue
      ensures fresh(refs) && fresh(refs.base) && refs.base.refCount == 0 && refs.destructions == 0
    {
      data := inValue;
      refs := new RefCountedThreadSafe(StartRefCountFromZero);
    }
  }
}
