/**
 * ObserverList of winlib/winbase/observer_list.h: a vector of observer
 * pointers that may be changed while it is being iterated. While iterators
 * are live a removed observer's slot is overwritten with null; the nulls
 * are compacted away when the last iterator goes.
 *
 * A null pointer is None; the list's weak pointer held by an iterator is
 * modelled as a plain reference that stays valid.
 */
module ObserverLists {
  import opened Wrappers

  /** ObserverListPolicy: which observers an iteration notifies. */
  datatype ObserverListPolicy =
    | All           // observers added during the iteration are notified
    | ExistingOnly  // only those present when the iteration began

  /** std::numeric_limits<size_t>::max() on a 64-bit build. */
  const SizeMax: nat := 0xFFFF_FFFF_FFFF_FFFF

  /** No null slots. */
  predicate NoNulls<O>(s: seq<Option<O>>)
  {
    forall k :: 0 <= k < |s| ==> s[k].Some?
  }

  /** No observer occurs in two slots. */
  ghost predicate NoDuplicates<O>(s: seq<Option<O>>)
  {
    forall i, j :: 0 <= i < j < |s| && s[i].Some? ==> s[i] != s[j]
  }

  /** The position of the first occurrence of x: what std::find returns. */
  function IndexOf<T(==)>(s: seq<T>, x: T): (i: nat)
    requires x in s
    ensures i < |s| && s[i] == x
    ensures forall k :: 0 <= k < i ==> s[k] != x
  {
    if s[0] == x then 0 else 1 + IndexOf(s[1..], x)
  }

  /** The non-null slots of s in their order: what Compact leaves. */
  function WithoutNulls<O>(s: seq<Option<O>>): (r: seq<Option<O>>)
    ensures NoNulls(r)
    ensures |r| <= |s|
  {
    if s == [] then []
    else if s[0].None? then WithoutNulls(s[1..])
    else [s[0]] + WithoutNulls(s[1..])
  }

  /** Compacting keeps exactly the observers that were in the list. */
  lemma {:induction false} WithoutNullsKeepsObservers<O>(s: seq<Option<O>>, o: O)
    ensures Some(o) in WithoutNulls(s) <==> Some(o) in s
  {
    if s != [] {
      WithoutNullsKeepsObservers(s[1..], o);
      assert s == [s[0]] + s[1..];
    }
  }

  /** Compacting preserves order: it distributes over concatenation. */
  lemma {:induction false} WithoutNullsAppend<O>(s: seq<Option<O>>, t: seq<Option<O>>)
    ensures WithoutNulls(s + t) == WithoutNulls(s) + WithoutNulls(t)
  {
    if s == [] {
      assert s + t == t;
    } else {
      assert (s + t)[1..] == s[1..] + t;
      WithoutNullsAppend(s[1..], t);
    }
  }

  /** A list without nulls is left as it is. */
  lemma {:induction false} WithoutNullsOfNoNulls<O>(s: seq<Option<O>>)
    requires NoNulls(s)
    ensures WithoutNulls(s) == s
  {
    if s != [] {
      WithoutNullsOfNoNulls(s[1..]);
    }
  }

  /** Compacting removes exactly the null slots. */
  lemma {:induction false} WithoutNullsLength<O>(s: seq<Option<O>>)
    ensures |WithoutNulls(s)| == |s| - NullCount(s)
  {
    if s != [] {
      WithoutNullsLength(s[1..]);
    }
  }

  /** The number of null slots of s. */
  function NullCount<O>(s: seq<Option<O>>): nat
  {
    if s == [] then 0 else (if s[0].None? then 1 else 0) + NullCount(s[1..])
  }

  /** Compacting a list of distinct observers keeps them distinct. */
  lemma {:induction false} WithoutNullsNoDuplicates<O>(s: seq<Option<O>>)
    requires NoDuplicates(s)
    ensures NoDuplicates(WithoutNulls(s))
  {
    if s != [] {
      var rest := WithoutNulls(s[1..]);
      assert NoDuplicates(s[1..]) by {
        forall i, j | 0 <= i < j < |s[1..]| && s[1..][i].Some?
          ensures s[1..][i] != s[1..][j]
        {
          assert s[1..][i] == s[i + 1] && s[1..][j] == s[j + 1];
        }
      }
      WithoutNullsNoDuplicates(s[1..]);
      if s[0].Some? {
        WithoutNullsKeepsObservers(s[1..], s[0].value);
        assert s[0] !in s[1..] by {
          forall k | 0 <= k < |s[1..]| ensures s[1..][k] != s[0] {
            assert s[1..][k] == s[k + 1];
          }
        }
        var r := [s[0]] + rest;
        forall i, j | 0 <= i < j < |r| && r[i].Some? ensures r[i] != r[j] {
          if i == 0 {
            assert r[j] == rest[j - 1];
            assert rest[j - 1] in rest;
          } else {
            assert r[i] == rest[i - 1] && r[j] == rest[j - 1];
          }
        }
      }
    }
  }

  /**
   * The observer list; checkEmpty and allowReentrancy are the check_empty
   * and allow_reentrancy template parameters.
   */
  class ObserverList<O(==)> {
    var observers: seq<Option<O>>
    var liveIteratorCount: int
    const policy: ObserverListPolicy
    const checkEmpty: bool
    const allowReentrancy: bool

    /**
     * Observers are distinct, and null slots exist only while an iterator
     * is live.
     */
    ghost predicate Valid()
      reads this
    {
      0 <= liveIteratorCount &&
      NoDuplicates(observers) &&
      (liveIteratorCount == 0 ==> NoNulls(observers))
    }

    /** ObserverList() (policy All) and ObserverList(policy). */
    constructor (policy: ObserverListPolicy, checkEmpty: bool, allowReentrancy: bool)
      ensures Valid() && observers == [] && liveIteratorCount == 0
      ensures this.policy == policy && this.checkEmpty == checkEmpty
      ensures this.allowReentrancy == allowReentrancy
    {
      observers := [];
      liveIteratorCount := 0;
      this.policy := policy;
      this.checkEmpty := checkEmpty;
      this.allowReentrancy := allowReentrancy;
    }

    /** HasObserver: obs occupies some slot. */
    function HasObserver(obs: O): (r: bool)
      reads this
      ensures r <==> exists k :: 0 <= k < |observers| && observers[k] == Some(obs)
    {
      Some(obs) in observers
    }

    /**
     * might_have_observers: true whenever an observer is registered, and
     * with no live iterator exactly then.
     */
    function MightHaveObservers(): (r: bool)
      reads this
      ensures (exists k :: 0 <= k < |observers| && observers[k].Some?) ==> r
      ensures Valid() && liveIteratorCount == 0 ==>
                (r <==> exists k :: 0 <= k < |observers| && observers[k].Some?)
    {
      assert observers != [] ==> observers[0] == observers[0];
      observers != []
    }

    /** AddObserver: appends obs unless it is already present. */
    method AddObserver(obs: O)
      requires Valid()
      modifies this
      ensures Valid() && HasObserver(obs)
      ensures observers == if old(HasObserver(obs)) then old(observers)
                           else old(observers) + [Some(obs)]
      ensures liveIteratorCount == old(liveIteratorCount)
    {
      if HasObserver(obs) {
        return;
      }
      observers := observers + [Some(obs)];
    }

    /**
     * RemoveObserver: with live iterators the slot of obs becomes null and
     * the length is kept; otherwise the slot is erased and the order of the
     * others kept. An absent observer changes nothing.
     */
    method RemoveObserver(obs: O)
      requires Valid()
      modifies this
      ensures Valid() && !HasObserver(obs)
      ensures liveIteratorCount == old(liveIteratorCount)
      ensures !old(HasObserver(obs)) ==> observers == old(observers)
      ensures old(HasObserver(obs)) && liveIteratorCount != 0 ==>
                var i := IndexOf(old(observers), Some(obs));
                observers == old(observers)[i := None]
      ensures old(HasObserver(obs)) && liveIteratorCount == 0 ==>
                var i := IndexOf(old(observers), Some(obs));
                observers == old(observers)[..i] + old(observers)[i + 1..]
      ensures forall o :: o != obs ==> (Some(o) in observers <==> Some(o) in old(observers))
    {
      if Some(obs) !in observers {
        return;
      }
      var i := IndexOf(observers, Some(obs));
      ghost var before := observers;
      assert forall k :: 0 <= k < |before| && k != i ==> before[k] != Some(obs);
      if liveIteratorCount != 0 {
        observers := observers[i := None];
        forall o | o != obs ensures (Some(o) in observers <==> Some(o) in before) {
          if Some(o) in before {
            var k :| 0 <= k < |before| && before[k] == Some(o);
            assert observers[k] == Some(o);
          }
        }
      } else {
        observers := observers[..i] + observers[i + 1..];
        forall a, b | 0 <= a < b < |observers| && observers[a].Some?
          ensures observers[a] != observers[b]
        {
          var a' := if a < i then a else a + 1;
          var b' := if b < i then b else b + 1;
          assert observers[a] == before[a'] && observers[b] == before[b'];
        }
        forall o | o != obs ensures (Some(o) in observers <==> Some(o) in before) {
          if Some(o) in before {
            var k :| 0 <= k < |before| && before[k] == Some(o);
            assert observers[if k < i then k else k - 1] == Some(o);
          }
        }
      }
    }

    /**
     * Clear: with live iterators every slot becomes null and the length is
     * kept; otherwise the list is emptied.
     */
    method Clear()
      requires Valid()
      modifies this
      ensures Valid() && liveIteratorCount == old(liveIteratorCount)
      ensures |observers| == if liveIteratorCount != 0 then old(|observers|) else 0
      ensures forall k :: 0 <= k < |observers| ==> observers[k] == None
      ensures forall o :: !HasObserver(o)
    {
      if liveIteratorCount != 0 {
        observers := seq(|observers|, _ => None);
      } else {
        observers := [];
      }
    }

    /** Compact: removes the null slots, keeping the others in order. */
    method Compact()
      requires Valid() || (0 <= liveIteratorCount && NoDuplicates(observers))
      modifies this
      ensures Valid() && liveIteratorCount == old(liveIteratorCount)
      ensures observers == WithoutNulls(old(observers))
    {
      WithoutNullsNoDuplicates(observers);
      observers := WithoutNulls(observers);
    }

    /** ~ObserverList: compacts when check_empty is set. */
    method Destroy()
      requires Valid()
      modifies this
      ensures Valid() && liveIteratorCount == old(liveIteratorCount)
      ensures observers == if checkEmpty then WithoutNulls(old(observers)) else old(observers)
    {
      if checkEmpty {
        Compact();
      }
    }

    /** begin(): an end iterator for an empty list, else one over this list. */
    method Begin() returns (it: Iter<O>)
      requires Valid()
      requires observers == [] || allowReentrancy || liveIteratorCount == 0
      modifies this
      ensures Valid() && fresh(it) && observers == old(observers)
      ensures old(observers) == [] ==> it.list == null && liveIteratorCount == old(liveIteratorCount)
      ensures old(observers) != [] ==> it.list == this && liveIteratorCount == old(liveIteratorCount) + 1
      ensures it.IsEnd() <==> old(observers) == [] || it.index == it.ClampedMaxIndex()
      ensures old(observers) != [] ==>
                it.maxIndex == (if policy == All then SizeMax else |observers|) &&
                it.index <= it.ClampedMaxIndex() &&
                (it.index < it.ClampedMaxIndex() ==> observers[it.index].Some?) &&
                (forall k :: 0 <= k < it.index ==> observers[k].None?)
      ensures old(observers) != [] ==>
                (it.IsEnd() <==> forall k :: 0 <= k < it.ClampedMaxIndex() ==> observers[k].None?)
    {
      if observers == [] {
        it := new Iter.Default();
      } else {
        it := new Iter(this);
      }
    }

    /** end(): the iterator with no list. */
    method End() returns (it: Iter<O>)
      ensures fresh(it) && it.list == null && it.IsEnd()
    {
      it := new Iter.Default();
    }
  }

  /** ObserverList::Iter. */
  class Iter<O(==)> {
    const list: ObserverList?<O>
    var index: nat
    const maxIndex: nat

    /** Iter(): no list; it is an end iterator. */
    constructor Default()
      ensures list == null && index == 0 && maxIndex == 0
    {
      list := null;
      index := 0;
      maxIndex := 0;
    }

    /**
     * Iter(list): starts at the first non-null slot, bounded by the list's
     * current size under ExistingOnly, and counts itself as live.
     */
    constructor (l: ObserverList<O>)
      requires l.Valid()
      requires l.allowReentrancy || l.liveIteratorCount == 0
      modifies l
      ensures list == l && l.Valid() && l.observers == old(l.observers)
      ensures l.liveIteratorCount == old(l.liveIteratorCount) + 1
      ensures maxIndex == if l.policy == All then SizeMax else |l.observers|
      ensures index <= ClampedMaxIndex()
      ensures index < ClampedMaxIndex() ==> l.observers[index].Some?
      ensures forall k :: 0 <= k < index ==> l.observers[k].None?
    {
      list := l;
      index := 0;
      maxIndex := if l.policy == All then SizeMax else |l.observers|;
      new;
      EnsureValidIndex();
      l.liveIteratorCount := l.liveIteratorCount + 1;
    }

    /** Iter(const Iter&): the same position, one more live iterator. */
    constructor Copy(other: Iter<O>)
      modifies other.list
      ensures list == other.list && index == other.index && maxIndex == other.maxIndex
      ensures other.list != null ==> other.list.observers == old(other.list.observers)
      ensures other.list != null ==>
                other.list.liveIteratorCount == old(other.list.liveIteratorCount) + 1
    {
      list := other.list;
      index := other.index;
      maxIndex := other.maxIndex;
      new;
      if list != null {
        list.liveIteratorCount := list.liveIteratorCount + 1;
      }
    }

    /**
     * ~Iter: one live iterator fewer; the last one to go compacts the
     * list.
     */
    method Dispose()
      requires list != null ==> list.Valid() && 0 < list.liveIteratorCount
      modifies list
      ensures list != null ==> list.Valid()
      ensures list != null ==> list.liveIteratorCount == old(list.liveIteratorCount) - 1
      ensures list != null ==>
                list.observers == if list.liveIteratorCount == 0
                                  then WithoutNulls(old(list.observers))
                                  else old(list.observers)
    {
      if list == null {
        return;
      }
      list.liveIteratorCount := list.liveIteratorCount - 1;
      if list.liveIteratorCount == 0 {
        list.Compact();
      }
    }

    /**
     * clamped_max_index: the smaller of the policy bound and the current
     * size.
     */
    function ClampedMaxIndex(): (r: nat)
      reads this, list
      requires list != null
      ensures r <= maxIndex && r <= |list.observers|
      ensures r == maxIndex || r == |list.observers|
      ensures maxIndex == SizeMax && |list.observers| <= SizeMax ==> r == |list.observers|
    {
      if maxIndex < |list.observers| then maxIndex else |list.observers|
    }

    /** is_end: no list, or the position is the clamped end. */
    function IsEnd(): (r: bool)
      reads this, list
      ensures list == null ==> r
      ensures list != null ==> (r <==> index == ClampedMaxIndex())
    {
      list == null || index == ClampedMaxIndex()
    }

    /**
     * operator==: all end iterators are equal; otherwise equal positions
     * in the same list.
     */
    function Equals(other: Iter<O>): (r: bool)
      reads this, list, other, other.list
      ensures IsEnd() && other.IsEnd() ==> r
      ensures list == other.list && index == other.index ==> r
      ensures r && !(IsEnd() && other.IsEnd()) ==> list == other.list && index == other.index
    {
      (IsEnd() && other.IsEnd()) || (list == other.list && index == other.index)
    }

    /** The observer at the current position (GetCurrent). */
    function Current(): (r: Option<O>)
      reads this, list
      requires list != null && index < ClampedMaxIndex()
      ensures r in list.observers
      ensures r.Some? ==> list.HasObserver(r.value)
      ensures r.None? ==> list.liveIteratorCount != 0 || !list.Valid()
    {
      list.observers[index]
    }

    /**
     * EnsureValidIndex: skips null slots until a non-null one or the
     * clamped end.
     */
    method EnsureValidIndex()
      requires list != null
      modifies this`index
      ensures old(index) <= index
      ensures old(index) < index ==> index <= ClampedMaxIndex()
      ensures forall k :: old(index) <= k < index ==> list.observers[k].None?
      ensures index < ClampedMaxIndex() ==> list.observers[index].Some?
      ensures old(index) <= ClampedMaxIndex() ==> index <= ClampedMaxIndex()
    {
      var maxIdx := ClampedMaxIndex();
      while index < maxIdx && list.observers[index].None?
        invariant old(index) <= index
        invariant old(index) <= maxIdx ==> index <= maxIdx
        invariant old(index) < index ==> index <= maxIdx
        invariant forall k :: old(index) <= k < index ==> list.observers[k].None?
      {
        index := index + 1;
      }
    }

    /**
     * operator++: moves past the current slot to the next non-null slot or
     * the clamped end; does nothing without a list.
     */
    method Increment()
      modifies this`index
      ensures list == null ==> index == old(index)
      ensures list != null ==> old(index) < index
      ensures list != null && old(index) + 1 < index ==> index <= ClampedMaxIndex()
      ensures list != null ==> forall k :: old(index) < k < index ==> list.observers[k].None?
      ensures list != null && index < ClampedMaxIndex() ==> list.observers[index].Some?
      ensures list != null && old(index) < ClampedMaxIndex() ==> index <= ClampedMaxIndex()
    {
      if list != null {
        index := index + 1;
        EnsureValidIndex();
      }
    }

    /** operator++(int): a copy at the old position, then this one advances. */
    method PostIncrement() returns (it: Iter<O>)
      modifies this`index, list
      ensures fresh(it) && it.list == list && it.index == old(index) && it.maxIndex == maxIndex
      ensures list != null ==> list.observers == old(list.observers)
      ensures list != null ==> list.liveIteratorCount == old(list.liveIteratorCount) + 1
      ensures list == null ==> index == old(index)
      ensures list != null ==> old(index) < index
      ensures list != null && index < ClampedMaxIndex() ==> list.observers[index].Some?
    {
      it := new Iter.Copy(this);
      Increment();
    }
  }
}
