/** The two containers the JSON values are built on (amap.h): `AList`, a
    growable array that starts with room for 10 elements and doubles when
    full, and `AMap`, an `AList` of key/value slots searched linearly, where
    removal leaves a tombstone that a later insertion reuses. */
module Containers {
  import opened Base

  /** A growable array. `size` is the source's `_size`: the capacity of
      `elements`, of which the first `count` are in use. */
  class AList<T(0)> {
    var size: int
    var count: int
    var elements: array<T>

    ghost predicate Valid()
      reads this
    {
      10 <= size == elements.Length && 0 <= count <= size
    }

    /** The elements in use, in index order. */
    ghost function Contents(): seq<T>
      reads this, elements
      requires Valid()
    {
      elements[..count]
    }

    ghost function Repr(): set<object>
      reads this
    {
      {this, elements}
    }

    /** A new list has capacity 10 and no elements. */
    constructor ()
      ensures Valid() && fresh(elements)
      ensures size == 10 && Contents() == []
    {
      size := 10;
      count := 0;
      elements := new T[10];
    }

    /** The copy constructor duplicates the whole backing store (all `size`
        slots, as `memcpy` does), so the copy shares no storage with the source. */
    constructor Copy(source: AList<T>)
      requires source.Valid()
      ensures Valid() && fresh(elements)
      ensures size == source.size && count == source.count
      ensures elements[..] == source.elements[..]
      ensures Contents() == source.Contents()
    {
      var e := new T[source.size];
      forall i | 0 <= i < source.size {
        e[i] := source.elements[i];
      }
      elements := e;
      size := source.size;
      count := source.count;
    }

    /** Appends `v`, first doubling the capacity when it is exhausted.
        Earlier elements keep their indices and values. */
    method Append(v: T)
      requires Valid()
      modifies this, elements
      ensures Valid()
      ensures Contents() == old(Contents()) + [v]
      ensures size == if old(count) == old(size) then 2 * old(size) else old(size)
      ensures elements == old(elements) || fresh(elements)
    {
      if count == size {
        size := size * 2;
        var grown := new T[size];
        forall i | 0 <= i < count {
          grown[i] := elements[i];
        }
        elements := grown;
      }
      elements[count] := v;
      count := count + 1;
    }

    /** `get(i)` / `operator[]`: the source does not check the index, so the
        caller must keep it below `count`. */
    function Get(i: int): (x: T)
      reads this, elements
      requires Valid() && 0 <= i < count
      ensures x == Contents()[i]
    {
      elements[i]
    }

    /** Assignment through the reference that `get(i)` (or an iterator)
        returns: element `i` is replaced and nothing else changes. */
    method Put(i: int, v: T)
      requires Valid() && 0 <= i < count
      modifies elements
      ensures Valid()
      ensures Contents() == old(Contents())[i := v]
    {
      elements[i] := v;
    }

    /** `size()` is the number of elements in use, not the capacity. */
    function Size(): (n: int)
      reads this, elements
      requires Valid()
      ensures n == |Contents()|
    {
      count
    }
  }

  /** A C string short enough for the 64-byte key buffer of a slot, with
      room for its terminator. */
  type Key = s: CStr | |s| < 64

  /** `KeyValuePair<T>`: a slot of the map; `valid == false` is a tombstone. */
  datatype Slot<T> = Slot(valid: bool, key: Key, value: T)

  /** The slot holding `key` alive, if any: what the lookup loop finds. */
  function Find<T>(s: seq<Slot<T>>, key: Key): (r: Option<nat>)
    ensures r.Some? ==> r.value < |s| && s[r.value].valid && s[r.value].key == key
    ensures r.Some? ==> forall j :: 0 <= j < r.value ==> !(s[j].valid && s[j].key == key)
    ensures r.None? <==> forall j :: 0 <= j < |s| ==> !(s[j].valid && s[j].key == key)
  {
    if |s| == 0 then None
    else if s[0].valid && s[0].key == key then Some(0)
    else match Find(s[1..], key)
      case None => None
      case Some(i) => Some(i + 1)
  }

  /** The first slot whose key is `key`, live or tombstoned. */
  function FindAny<T>(s: seq<Slot<T>>, key: Key): (r: Option<nat>)
    ensures r.Some? ==> r.value < |s| && s[r.value].key == key
    ensures r.Some? ==> forall j :: 0 <= j < r.value ==> s[j].key != key
    ensures r.None? <==> forall j :: 0 <= j < |s| ==> s[j].key != key
  {
    if |s| == 0 then None
    else if s[0].key == key then Some(0)
    else match FindAny(s[1..], key)
      case None => None
      case Some(i) => Some(i + 1)
  }

  /** The first tombstone, if any. */
  function FirstTombstone<T>(s: seq<Slot<T>>): (r: Option<nat>)
    ensures r.Some? ==> r.value < |s| && !s[r.value].valid
    ensures r.Some? ==> forall j :: 0 <= j < r.value ==> s[j].valid
    ensures r.None? <==> forall j :: 0 <= j < |s| ==> s[j].valid
  {
    if |s| == 0 then None
    else if !s[0].valid then Some(0)
    else match FirstTombstone(s[1..])
      case None => None
      case Some(i) => Some(i + 1)
  }

  /** The map's invariant: no slot before a live slot carries the live slot's
      key. In particular no key has two live slots. */
  ghost predicate KeysOrdered<T>(s: seq<Slot<T>>)
  {
    forall i, j :: 0 <= i < j < |s| && s[j].valid ==> s[i].key != s[j].key
  }

  /** What `get(key)` sees: the value of the live slot for `key`. */
  function Lookup<T>(s: seq<Slot<T>>, key: Key): Option<T>
  {
    match Find(s, key)
      case None => None
      case Some(i) => Some(s[i].value)
  }

  /** `get_create(key)` as a function of the slots: the new slots and the
      index of the slot whose value the returned pointer designates. */
  function Claim<T>(s: seq<Slot<T>>, key: Key, blank: T): (seq<Slot<T>>, nat)
  {
    match Find(s, key)
      case Some(i) => (s, i)
      case None =>
        match FirstTombstone(s)
          case Some(j) => (s[j := Slot(true, key, blank)], j)
          case None => (s + [Slot(true, key, blank)], |s|)
  }

  /** `set(key, v)`: claim the slot for `key`, then store `v` in it. */
  function Assign<T>(s: seq<Slot<T>>, key: Key, blank: T, v: T): seq<Slot<T>>
  {
    var (t, i) := Claim(s, key, blank);
    if i < |t| then t[i := t[i].(value := v)] else t
  }

  /** `remove(key)` as a function of the slots: the first slot with that key,
      live or not, becomes a tombstone. */
  function Tombstone<T>(s: seq<Slot<T>>, key: Key): seq<Slot<T>>
  {
    match FindAny(s, key)
      case None => s
      case Some(i) => s[i := s[i].(valid := false)]
  }

  /** `AMap<T>`: an `AList` of slots (the source derives it from
      `AList<KeyValuePair<T>>`; here the map holds that list). `blank` is the
      value a default-constructed `T` has, which a new slot starts with. */
  class AMap<T(0)> {
    const list: AList<Slot<T>>
    const blank: T

    ghost predicate Valid()
      reads this, list, list.elements
    {
      list.Valid() && KeysOrdered(list.Contents())
    }

    ghost function Slots(): seq<Slot<T>>
      reads this, list, list.elements
      requires list.Valid()
    {
      list.Contents()
    }

    ghost function Repr(): set<object>
      reads this, list
    {
      {this, list, list.elements}
    }

    constructor (blank: T)
      ensures Valid() && fresh(list) && fresh(list.elements)
      ensures this.blank == blank && Slots() == []
    {
      this.blank := blank;
      list := new AList();
    }

    /** The copy constructor copies the slots one for one, tombstones included. */
    constructor Copy(source: AMap<T>)
      requires source.Valid()
      ensures Valid() && fresh(list) && fresh(list.elements)
      ensures blank == source.blank && Slots() == source.Slots()
    {
      blank := source.blank;
      list := new AList.Copy(source.list);
    }

    /** `get(key)`: the index of the first live slot whose key equals `key`
        (`strcmp` equality), or `None` for the NULL pointer. */
    method Get(key: Key) returns (p: Option<nat>)
      requires list.Valid()
      ensures p == Find(Slots(), key)
    {
      var i := 0;
      while i < list.Size()
        invariant 0 <= i <= |Slots()|
        invariant forall j :: 0 <= j < i ==> !(Slots()[j].valid && Slots()[j].key == key)
      {
        var kvp := list.Get(i);
        if kvp.valid && kvp.key == key {
          return Some(i);
        }
        i := i + 1;
      }
      return None;
    }

    /** `has(key)` is `get(key) != NULL`. */
    method Has(key: Key) returns (b: bool)
      requires list.Valid()
      ensures b <==> exists j :: 0 <= j < |Slots()| && Slots()[j].valid && Slots()[j].key == key
    {
      var p := Get(key);
      b := p.Some?;
    }

    /** `has(int)`: the key is the decimal text `itoa` gives. */
    method HasInt(key: Int32) returns (b: bool)
      requires list.Valid()
      ensures b <==> Lookup(Slots(), Itoa(key)).Some?
    {
      b := Has(Itoa(key));
    }

    /** `get_create(key)`: an existing live slot is returned as it is;
        otherwise the first tombstone is overwritten with a fresh slot for
        `key`, and only when there is none is a slot appended. */
    method GetCreate(key: Key) returns (p: nat)
      requires Valid()
      modifies list, list.elements
      ensures Valid()
      ensures (Slots(), p) == Claim(old(Slots()), key, blank)
      ensures list.elements == old(list.elements) || fresh(list.elements)
    {
      var found := Get(key);
      if found.Some? {
        return found.value;
      }
      var toAdd := Slot(true, key, blank);
      var i := 0;
      while i < list.Size()
        invariant 0 <= i <= |Slots()|
        invariant Slots() == old(Slots())
        invariant forall j :: 0 <= j < i ==> Slots()[j].valid
      {
        var kvp := list.Get(i);
        if !kvp.valid {
          list.Put(i, toAdd);
          ClaimKeepsOrder(old(Slots()), key, blank);
          return i;
        }
        i := i + 1;
      }
      list.Append(toAdd);
      p := list.Size() - 1;
      ClaimKeepsOrder(old(Slots()), key, blank);
    }

    /** `get_create(int)`: the key is the decimal text of the integer. */
    method GetCreateInt(key: Int32) returns (p: nat)
      requires Valid()
      modifies list, list.elements
      ensures Valid()
      ensures (Slots(), p) == Claim(old(Slots()), Itoa(key), blank)
      ensures list.elements == old(list.elements) || fresh(list.elements)
    {
      p := GetCreate(Itoa(key));
    }

    /** `set(key, v)` (and `operator[](key) = v`): store through the address
        `get_create` returns. */
    method Set(key: Key, v: T)
      requires Valid()
      modifies list, list.elements
      ensures Valid()
      ensures Slots() == Assign(old(Slots()), key, blank, v)
      ensures list.elements == old(list.elements) || fresh(list.elements)
    {
      var p := GetCreate(key);
      var kvp := list.Get(p);
      list.Put(p, kvp.(value := v));
      AssignKeepsOrder(old(Slots()), key, blank, v);
    }

    /** `remove(key)`: the first slot whose key matches, whatever its `valid`
        flag, becomes a tombstone; its index is returned. The slot count does
        not change. */
    method Remove(key: Key) returns (p: Option<nat>)
      requires Valid()
      modifies list.elements
      ensures Valid()
      ensures p == FindAny(old(Slots()), key)
      ensures Slots() == Tombstone(old(Slots()), key)
    {
      var i := 0;
      while i < list.Size()
        invariant 0 <= i <= |Slots()|
        invariant Slots() == old(Slots())
        invariant forall j :: 0 <= j < i ==> Slots()[j].key != key
      {
        var kvp := list.Get(i);
        if kvp.key == key {
          list.Put(i, kvp.(valid := false));
          TombstoneKeepsOrder(old(Slots()), key);
          return Some(i);
        }
        i := i + 1;
      }
      return None;
    }
  }

  /** Decimal text of an integer, as `itoa(key, buf, 10)` writes it. */
  function Itoa(x: Int32): (s: Key)
  {
    var n: nat := if x < 0 then -(x as int) else x;
    DigitsAreShort(n);
    if x < 0 then ['-' as int] + Digits(n) else Digits(n)
  }

  function Pow10(k: nat): (p: nat)
    ensures p >= 1
  {
    if k == 0 then 1 else 10 * Pow10(k - 1)
  }

  /** The decimal digits of a natural number, most significant first, with
      no leading zero. */
  function Digits(n: nat): (s: seq<Byte>)
    ensures 1 <= |s|
    ensures |s| > 1 ==> Pow10(|s| - 1) <= n
    ensures forall i :: 0 <= i < |s| ==> '0' as int <= s[i] <= '9' as int
  {
    if n < 10 then ['0' as int + n] else Digits(n / 10) + ['0' as int + n % 10]
  }

  lemma {:induction false} Pow10Grows(j: nat, k: nat)
    requires j <= k
    ensures Pow10(j) <= Pow10(k)
  {
    if j < k {
      Pow10Grows(j, k - 1);
    }
  }

  /** A 32-bit magnitude has at most 10 digits. */
  lemma DigitsAreShort(n: nat)
    requires n <= 0x8000_0000
    ensures |Digits(n)| <= 10
  {
    assert Pow10(10) == 10_000_000_000;
    if |Digits(n)| > 10 {
      Pow10Grows(10, |Digits(n)| - 1);
    }
  }

  lemma ClaimKeepsOrder<T>(s: seq<Slot<T>>, key: Key, blank: T)
    requires KeysOrdered(s)
    ensures KeysOrdered(Claim(s, key, blank).0)
  {
  }

  lemma AssignKeepsOrder<T>(s: seq<Slot<T>>, key: Key, blank: T, v: T)
    requires KeysOrdered(s)
    ensures KeysOrdered(Assign(s, key, blank, v))
  {
    ClaimKeepsOrder(s, key, blank);
  }

  lemma TombstoneKeepsOrder<T>(s: seq<Slot<T>>, key: Key)
    requires KeysOrdered(s)
    ensures KeysOrdered(Tombstone(s, key))
  {
  }

  /** `set(key, v)` stores `v` under `key` in the slot `get_create` claims
      and leaves every other existing slot as it was. */
  lemma AssignDisturbsNothing<T>(s: seq<Slot<T>>, key: Key, blank: T, v: T)
    ensures var p := Claim(s, key, blank).1;
      && |Assign(s, key, blank, v)| == |Claim(s, key, blank).0|
      && p < |Assign(s, key, blank, v)|
      && Assign(s, key, blank, v)[p] == Slot(true, key, v)
      && (forall j :: 0 <= j < |s| && j != p ==> Assign(s, key, blank, v)[j] == s[j])
  {
    ClaimDisturbsNothing(s, key, blank);
  }

  /** After `set(key, v)`, `get(key)` yields `v`. */
  lemma AssignThenLookup<T>(s: seq<Slot<T>>, key: Key, blank: T, v: T)
    ensures Lookup(Assign(s, key, blank, v), key) == Some(v)
  {
    ClaimDisturbsNothing(s, key, blank);
    var c := Claim(s, key, blank);
    var t, i := c.0, c.1;
    var u := t[i := t[i].(value := v)];
    assert u == Assign(s, key, blank, v);
    assert forall j :: 0 <= j < i ==> !(t[j].valid && t[j].key == key);
    assert forall j :: 0 <= j < i ==> u[j] == t[j];
    assert u[i].valid && u[i].key == key;
    var f := Find(u, key);
    assert f.Some? && f.value == i;
  }

  /** `set(key, v)` leaves the lookup of every other key as it was. */
  lemma AssignKeepsOthers<T>(s: seq<Slot<T>>, key: Key, blank: T, v: T, other: Key)
    requires other != key
    ensures Lookup(Assign(s, key, blank, v), other) == Lookup(s, other)
  {
    ClaimDisturbsNothing(s, key, blank);
    var c := Claim(s, key, blank);
    var t, i := c.0, c.1;
    var u := t[i := t[i].(value := v)];
    assert u == Assign(s, key, blank, v);
    assert i < |s| ==> !(s[i].valid && s[i].key == other);
    forall j | 0 <= j < |s|
      ensures (u[j].valid && u[j].key == other) == (s[j].valid && s[j].key == other)
    {
      if j != i {
        assert u[j] == s[j];
      }
    }
    SameLiveSlotsSameFind(s, u, other);
  }

  /** Two slot sequences that agree on which slots hold `k` alive (the longer
      one holding no extra live `k`) find the same slot for `k`. */
  lemma SameLiveSlotsSameFind<T>(s: seq<Slot<T>>, u: seq<Slot<T>>, k: Key)
    requires |s| <= |u|
    requires forall j :: 0 <= j < |s| ==> (u[j].valid && u[j].key == k) == (s[j].valid && s[j].key == k)
    requires forall j :: |s| <= j < |u| ==> !(u[j].valid && u[j].key == k)
    ensures Find(u, k) == Find(s, k)
  {
    var fu, fs := Find(u, k), Find(s, k);
    if fs.Some? {
      assert fu.Some?;
      assert fu.value == fs.value;
    } else {
      assert fu.None?;
    }
  }

  /** `get_create` grows the slot count only when the key has no live slot
      and there is no tombstone to reuse; every slot but the claimed one is
      left as it was, and a live slot it returns keeps its value. */
  lemma ClaimDisturbsNothing<T>(s: seq<Slot<T>>, key: Key, blank: T)
    ensures var (t, p) := Claim(s, key, blank);
      && p < |t|
      && t[p].valid && t[p].key == key
      && |t| == (if Find(s, key).None? && FirstTombstone(s).None? then |s| + 1 else |s|)
      && (forall j :: 0 <= j < |s| && j != p ==> t[j] == s[j])
      && (p < |s| && s[p].valid ==> t[p] == s[p])
  {
  }

  /** After `remove(key)` the key is absent, every other key looks up as
      before, and the slot count is unchanged. */
  lemma TombstoneThenLookup<T>(s: seq<Slot<T>>, key: Key, other: Key)
    requires KeysOrdered(s)
    ensures |Tombstone(s, key)| == |s|
    ensures Lookup(Tombstone(s, key), key) == None
    ensures other != key ==> Lookup(Tombstone(s, key), other) == Lookup(s, other)
  {
    var t := Tombstone(s, key);
    if Find(s, key).Some? {
      assert FindAny(s, key) == Find(s, key);
    }
    if other != key {
      assert forall j :: 0 <= j < |s| ==> (t[j].valid && t[j].key == other) == (s[j].valid && s[j].key == other);
    }
  }

  /** Removing a key twice still yields a slot the second time: `remove`
      does not look at `valid`, so it finds the tombstone it left. */
  lemma RemoveTwiceFindsTombstone<T>(s: seq<Slot<T>>, key: Key)
    ensures FindAny(Tombstone(s, key), key) == FindAny(s, key)
  {
    var t := Tombstone(s, key);
    assert forall j :: 0 <= j < |s| ==> t[j].key == s[j].key;
  }
}
