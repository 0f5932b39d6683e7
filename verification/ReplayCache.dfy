/** atomefin/mock/server_options.go: the idempotency cache, a map into a linked
    list kept in most-recently-touched order. */
module ReplayCache {
  import opened Strings
  import opened Wrappers

  type Headers = map<string, seq<string>>

  datatype CacheEntry = CacheEntry(key: string, status: int, body: string, headers: Headers)

  // ---------- The abstract cache: entries, most recently touched first ----------

  function Lookup(s: seq<CacheEntry>, key: string): Option<CacheEntry> {
    if s == [] then None
    else if s[0].key == key then Some(s[0])
    else Lookup(s[1..], key)
  }

  function Without(s: seq<CacheEntry>, key: string): seq<CacheEntry> {
    if s == [] then []
    else if s[0].key == key then Without(s[1..], key)
    else [s[0]] + Without(s[1..], key)
  }

  function AfterGet(s: seq<CacheEntry>, key: string): seq<CacheEntry> {
    match Lookup(s, key)
    case Some(e) => [e] + Without(s, key)
    case None => s
  }

  function AfterPut(s: seq<CacheEntry>, cap: nat, e: CacheEntry): seq<CacheEntry> {
    if Lookup(s, e.key).Some? then [e] + Without(s, e.key)
    else if |s| >= cap && s != [] then [e] + s[..|s| - 1]
    else [e] + s
  }

  function Keys(s: seq<CacheEntry>): (ks: seq<string>)
    ensures |ks| == |s|
  {
    seq(|s|, i requires 0 <= i < |s| => s[i].key)
  }

  lemma {:induction false} LookupFinds(s: seq<CacheEntry>, key: string)
    ensures Lookup(s, key).Some? <==> key in Keys(s)
    ensures Lookup(s, key).Some? ==> Lookup(s, key).value in s && Lookup(s, key).value.key == key
  {
    if s != [] {
      LookupFinds(s[1..], key);
      assert Keys(s) == [s[0].key] + Keys(s[1..]);
    }
  }

  lemma AbsentAfterEviction(s: seq<CacheEntry>, key: string)
    requires s != [] && Lookup(s, key).None?
    ensures Lookup(s[..|s| - 1], key).None?
  {
    LookupFinds(s, key);
    LookupFinds(s[..|s| - 1], key);
    assert Keys(s[..|s| - 1]) == Keys(s)[..|s| - 1];
  }

  // ---------- The concrete cache ----------

  /** A `list.Element` holding a cache entry. */
  class Element {
    var value: CacheEntry

    constructor (e: CacheEntry)
      ensures value == e
    {
      value := e;
    }
  }

  function Dropping<T(==)>(s: seq<T>, x: T): seq<T> {
    if s == [] then []
    else if s[0] == x then Dropping(s[1..], x)
    else [s[0]] + Dropping(s[1..], x)
  }

  lemma {:induction false} DroppingFacts<T>(s: seq<T>, x: T)
    ensures forall y :: y in Dropping(s, x) <==> y in s && y != x
    ensures NoDup(s) ==> NoDup(Dropping(s, x))
    ensures NoDup(s) && x in s ==> |Dropping(s, x)| == |s| - 1
    ensures x !in s ==> Dropping(s, x) == s
  {
    if s != [] {
      DroppingFacts(s[1..], x);
      assert s == [s[0]] + s[1..];
      assert NoDup(s) ==> s[0] !in s[1..];
    }
  }

  /** The operations of `container/list` the cache uses. */
  class LinkedList {
    var elems: seq<Element>

    constructor ()
      ensures elems == []
    {
      elems := [];
    }

    method MoveToFront(e: Element)
      requires e in elems && NoDup(elems)
      modifies this
      ensures elems == [e] + Dropping(old(elems), e)
      ensures NoDup(elems) && |elems| == |old(elems)|
      ensures forall x :: x in elems <==> x in old(elems)
    {
      DroppingFacts(elems, e);
      elems := [e] + Dropping(elems, e);
    }

    method PushFront(e: CacheEntry) returns (elem: Element)
      modifies this
      ensures fresh(elem) && elem.value == e && elems == [elem] + old(elems)
    {
      elem := new Element(e);
      elems := [elem] + elems;
    }

    method Remove(e: Element)
      modifies this
      ensures elems == Dropping(old(elems), e)
    {
      elems := Dropping(elems, e);
    }
  }

  ghost function Values(es: seq<Element>): (s: seq<CacheEntry>)
    reads es
    ensures |s| == |es|
  {
    seq(|es|, i requires 0 <= i < |es| reads es => es[i].value)
  }

  /** The map files every listed element, and nothing else, under its key. */
  ghost predicate Filed(items: map<string, Element>, es: seq<Element>)
    reads es
  {
    && (forall e | e in es :: e.value.key in items && items[e.value.key] == e)
    && (forall k | k in items :: items[k] in es && items[k].value.key == k)
  }

  lemma FiledSameMembers(items: map<string, Element>, es: seq<Element>, fs: seq<Element>)
    requires Filed(items, es) && forall e :: e in fs <==> e in es
    ensures Filed(items, fs)
  {
  }

  lemma ValuesMoved(items: map<string, Element>, es: seq<Element>, elem: Element)
    requires Filed(items, es) && elem in es
    ensures Values([elem] + Dropping(es, elem)) == [elem.value] + Without(Values(es), elem.value.key)
  {
    WithoutIsDropping(es, elem);
    var rest := Dropping(es, elem);
    assert Values([elem] + rest) == [elem.value] + Values(rest);
  }

  lemma FiledEvicted(items: map<string, Element>, front: seq<Element>, last: Element)
    requires Filed(items, front + [last]) && last !in front
    ensures Filed(items - {last.value.key}, front)
  {
    assert forall e | e in front :: e in front + [last];
    assert last in front + [last];
  }

  lemma FrontFacts(es: seq<Element>)
    requires NoDup(es) && es != []
    ensures NoDup(es[..|es| - 1]) && es[|es| - 1] !in es[..|es| - 1] && es == es[..|es| - 1] + [es[|es| - 1]]
    ensures Values(es[..|es| - 1]) == Values(es)[..|es| - 1]
  {
  }

  class IdempotencyCache {
    ghost var Contents: seq<CacheEntry>
    ghost var Repr: set<object>

    const cap: nat
    var items: map<string, Element>
    var order: LinkedList

    /** Map and list are in bijection, each element filed under its own key, and
        the list spells out `Contents`. */
    ghost predicate Valid()
      reads this, Repr
    {
      && this in Repr && order in Repr
      && (forall e | e in order.elems :: e in Repr)
      && 0 < cap
      && |order.elems| <= cap
      && NoDup(order.elems)
      && Filed(items, order.elems)
      && Contents == Values(order.elems)
    }

    constructor (capacity: int)
      ensures Valid() && fresh(Repr) && Contents == []
      ensures cap == if capacity <= 0 then 1024 else capacity
    {
      cap := if capacity <= 0 then 1024 else capacity;
      items := map[];
      var list := new LinkedList();
      order := list;
      Contents, Repr := [], {this, list};
    }

    lemma LookupIsItem(key: string)
      requires Valid()
      ensures key in items <==> Lookup(Contents, key).Some?
      ensures key in items ==> Lookup(Contents, key) == Some(items[key].value)
                               && items[key] in order.elems && items[key].value.key == key
    {
      LookupFinds(Contents, key);
      var s := Contents;
      assert forall i | 0 <= i < |s| :: s[i] == order.elems[i].value;
      if key in items {
        var i :| 0 <= i < |order.elems| && order.elems[i] == items[key];
        assert Keys(s)[i] == key;
      }
      if Lookup(s, key).Some? {
        var i :| 0 <= i < |s| && s[i] == Lookup(s, key).value;
        assert items[key] == order.elems[i];
      }
    }

    method Get(key: string) returns (hit: Option<CacheEntry>)
      requires Valid()
      modifies Repr
      ensures Valid() && Repr == old(Repr)
      ensures hit == Lookup(old(Contents), key)
      ensures Contents == AfterGet(old(Contents), key)
    {
      LookupIsItem(key);
      if key in items {
        Refresh(items[key]);
        hit := Some(items[key].value);
      } else {
        hit := None;
      }
    }

    /** `c.order.MoveToFront(elem)`. */
    method Refresh(elem: Element)
      requires Valid() && elem in order.elems
      modifies this`Contents, order
      ensures Valid() && order.elems == [elem] + Dropping(old(order.elems), elem)
      ensures Contents == [elem.value] + Without(old(Contents), elem.value.key)
    {
      hide Dropping, Without;
      ValuesMoved(items, order.elems, elem);
      ghost var es := order.elems;
      order.MoveToFront(elem);
      FiledSameMembers(items, es, order.elems);
      Contents := [elem.value] + Without(Contents, elem.value.key);
    }

    method Put(key: string, e: CacheEntry)
      requires Valid() && e.key == key
      modifies Repr
      ensures Valid() && fresh(Repr - old(Repr))
      ensures Contents == AfterPut(old(Contents), cap, e)
    {
      hide Filed, NoDup, Values;
      LookupIsItem(key);
      if key in items {
        Overwrite(items[key], e);
        return;
      }
      if |order.elems| >= cap {
        Evict();
        AbsentAfterEviction(old(Contents), key);
        LookupIsItem(key);
      }
      Insert(e);
    }

    /** The hit branch of `Put`: `elem.Value = e` and move to the front. */
    method Overwrite(elem: Element, e: CacheEntry)
      requires Valid() && elem in order.elems && e.key == elem.value.key
      modifies this`Contents, order, elem
      ensures Valid()
      ensures Contents == [e] + Without(old(Contents), e.key)
    {
      Refresh(elem);
      SetFront(e);
    }

    method SetFront(e: CacheEntry)
      requires Valid() && order.elems != [] && e.key == order.elems[0].value.key
      modifies this`Contents, order.elems[0]
      ensures Valid() && Contents == [e] + old(Contents)[1..]
    {
      Contents := [e] + Contents[1..];
      order.elems[0].value := e;
    }

    /** Dropping the back of the list, and its key from the map. */
    method Evict()
      requires Valid() && order.elems != []
      modifies this`Contents, this`items, order
      ensures Valid() && |order.elems| == |old(order.elems)| - 1
      ensures Contents == old(Contents)[..|old(Contents)| - 1]
    {
      hide Filed, NoDup, Values, Dropping;
      ghost var es, front := order.elems, order.elems[..|order.elems| - 1];
      var oldest := order.elems[|order.elems| - 1];
      FrontFacts(es);
      DroppingLast(es);
      FiledEvicted(items, front, oldest);
      order.Remove(oldest);
      assert order.elems == front;
      items := items - {oldest.value.key};
      Contents := Contents[..|Contents| - 1];
    }

    method Insert(e: CacheEntry)
      requires Valid() && e.key !in items && |order.elems| < cap
      modifies this, order
      ensures Valid() && fresh(Repr - old(Repr)) && order == old(order)
      ensures Contents == [e] + old(Contents)
    {
      ghost var kept := order.elems;
      var elem := order.PushFront(e);
      items := items[e.key := elem];
      Contents, Repr := [e] + Contents, Repr + {elem};
      assert Values([elem] + kept) == [e] + Values(kept);
    }

    method Reset()
      requires Valid()
      modifies Repr
      ensures Valid() && fresh(Repr - old(Repr)) && Contents == []
    {
      items := map[];
      order := new LinkedList();
      Contents, Repr := [], {this, order};
    }
  }

  lemma {:induction false} DroppingLast<T>(s: seq<T>)
    requires NoDup(s) && s != []
    ensures Dropping(s, s[|s| - 1]) == s[..|s| - 1]
  {
    if |s| > 1 {
      assert s[1..][|s[1..]| - 1] == s[|s| - 1];
      DroppingLast(s[1..]);
    }
  }

  lemma {:induction false} WithoutIsDropping(es: seq<Element>, elem: Element)
    requires forall i, j | 0 <= i < |es| && 0 <= j < |es| && es[i].value.key == es[j].value.key :: es[i] == es[j]
    requires elem in es
    ensures Without(Values(es), elem.value.key) == Values(Dropping(es, elem))
  {
    var s := Values(es);
    if |es| > 0 {
      assert s[1..] == Values(es[1..]);
      assert s[0] == es[0].value;
      if elem in es[1..] {
        WithoutIsDropping(es[1..], elem);
      } else {
        assert es == [es[0]] + es[1..];
        DroppingFacts(es[1..], elem);
        WithoutAbsent(s[1..], elem.value.key);
      }
    }
  }

  lemma {:induction false} WithoutAbsent(s: seq<CacheEntry>, key: string)
    requires key !in Keys(s)
    ensures Without(s, key) == s
  {
    if s != [] {
      assert Keys(s)[0] == s[0].key;
      assert forall i | 0 <= i < |s[1..]| :: Keys(s[1..])[i] == Keys(s)[i + 1];
      WithoutAbsent(s[1..], key);
    }
  }
}
