/** The JSON value (types.h): a tagged union whose array and object variants
    hold a reference to a container that other values may share. Each
    container also carries, as ghost state, the JSON tree it denotes and the
    set of objects that tree is stored in. */
module JsonTypes {
  import opened Base
  import opened Containers

  /** The tags of types.h. */
  const JSON_NULL := 0
  const JSON_BOOLEAN := 1
  const JSON_INT := 2
  const JSON_FLOAT := 3
  const JSON_STRING := 4
  const JSON_ARRAY := 5
  const JSON_OBJECT := 6
  const JSON_INVALID := 255

  /** A float payload, kept exactly as the number parsed: mantissa *
      10^exponent. Rounding to `float` is not modelled. */
  datatype Decimal = Decimal(mantissa: int, exponent: int)

  /** `Json::Value`. Strings are immutable once built, so their payload is a
      value; arrays and objects are references, as in the source. */
  datatype Value =
    | Null
    | Bool(b: bool)
    | Int(i: Int32)
    | Float(f: Decimal)
    | Str(s: CStr)
    | Arr(a: JArray)
    | Obj(o: JObject)
    | Invalid

  /** The tree a value denotes, with containers replaced by their contents. */
  datatype Json =
    | JNull
    | JBool(b: bool)
    | JInt(i: Int32)
    | JFloat(f: Decimal)
    | JStr(s: CStr)
    | JArr(items: seq<Json>)
    | JObj(slots: seq<Slot<Json>>)
    | JInvalid

  /** The `type` byte of a value. */
  function Tag(v: Value): Byte
  {
    match v
    case Null => JSON_NULL
    case Bool(_) => JSON_BOOLEAN
    case Int(_) => JSON_INT
    case Float(_) => JSON_FLOAT
    case Str(_) => JSON_STRING
    case Arr(_) => JSON_ARRAY
    case Obj(_) => JSON_OBJECT
    case Invalid => JSON_INVALID
  }

  /** The `type` byte of the value a tree is read from. */
  function JsonTag(t: Json): Byte
  {
    match t
    case JNull => JSON_NULL
    case JBool(_) => JSON_BOOLEAN
    case JInt(_) => JSON_INT
    case JFloat(_) => JSON_FLOAT
    case JStr(_) => JSON_STRING
    case JArr(_) => JSON_ARRAY
    case JObj(_) => JSON_OBJECT
    case JInvalid => JSON_INVALID
  }

  predicate IsNull(v: Value) { Tag(v) == JSON_NULL }
  predicate IsBool(v: Value) { Tag(v) == JSON_BOOLEAN }
  predicate IsInt(v: Value) { Tag(v) == JSON_INT }
  predicate IsFloat(v: Value) { Tag(v) == JSON_FLOAT }
  predicate IsString(v: Value) { Tag(v) == JSON_STRING }
  predicate IsArray(v: Value) { Tag(v) == JSON_ARRAY }
  predicate IsObject(v: Value) { Tag(v) == JSON_OBJECT }

  /** `isInvalid()` as meant: the tag is 255. See `IsInvalidAsWritten`. */
  predicate IsInvalid(v: Value) { Tag(v) == JSON_INVALID }

  /** The tag tells the variants apart: each `is*` test holds for exactly one
      variant. */
  lemma TagDecidesVariant(v: Value)
    ensures IsNull(v) <==> v.Null?
    ensures IsBool(v) <==> v.Bool?
    ensures IsInt(v) <==> v.Int?
    ensures IsFloat(v) <==> v.Float?
    ensures IsString(v) <==> v.Str?
    ensures IsArray(v) <==> v.Arr?
    ensures IsObject(v) <==> v.Obj?
    ensures IsInvalid(v) <==> v.Invalid?
  {
  }

  /** `asBool()`: the flag as 1 or 0, and 0 for any other tag. */
  function AsBool(v: Value): (r: int)
    ensures IsBool(v) ==> (r == 1 <==> v.b) && (r == 0 <==> !v.b)
    ensures !IsBool(v) ==> r == 0
  {
    if IsBool(v) then (if v.b then 1 else 0) else 0
  }

  /** `asInt()`: the integer, and 0 for any other tag. */
  function AsInt(v: Value): (r: Int32)
    ensures IsInt(v) ==> Int(r) == v
    ensures !IsInt(v) ==> r == 0
  {
    if IsInt(v) then v.i else 0
  }

  /** `asFloat()`/`asDouble()`: the float, and zero for any other tag. */
  function AsFloat(v: Value): (r: Decimal)
    ensures IsFloat(v) ==> Float(r) == v
    ensures !IsFloat(v) ==> r.mantissa == 0
  {
    if IsFloat(v) then v.f else Decimal(0, 0)
  }

  /** `asString()`: the string, and NULL (`None`) for any other tag. */
  function AsString(v: Value): (r: Option<CStr>)
    ensures r.Some? <==> IsString(v)
    ensures r.Some? ==> Str(r.value) == v
  {
    if IsString(v) then Some(v.s) else None
  }

  /** `asArray()` dereferences the payload without looking at the tag, so
      it is only defined on an array. */
  function AsArray(v: Value): (a: JArray)
    requires IsArray(v)
    ensures Arr(a) == v
  {
    v.a
  }

  /** `asObject()`, likewise only defined on an object. */
  function AsObject(v: Value): (o: JObject)
    requires IsObject(v)
    ensures Obj(o) == v
  {
    v.o
  }

  /** `Value(uint)`: stored as an `int`, so values from 2^31 on wrap to
      negative integers. */
  function FromUint(u: nat): (v: Value)
    requires u < 0x1_0000_0000
    ensures IsInt(v)
    ensures u < 0x8000_0000 ==> AsInt(v) == u
    ensures u >= 0x8000_0000 ==> AsInt(v) == u - 0x1_0000_0000
  {
    Int(Wrap32(u))
  }

  /** `invalid()`: a value with tag 255, which no other constructor gives. */
  function MakeInvalid(): (v: Value)
    ensures IsInvalid(v) && !IsNull(v) && Tag(v) == 255
  {
    Invalid
  }

  /** `Value(char *s)`: the string up to its terminator is copied into a
      buffer of the value's own, so later changes to `s` do not reach it. */
  method FromCString(s: array<Byte>) returns (v: Value)
    requires 0 in s[..]
    ensures v == Str(CString(s[..]))
  {
    var n := 0;
    while s[n] != 0
      invariant 0 <= n < s.Length
      invariant forall k :: 0 <= k < n ==> s[k] != 0
      invariant 0 in s[n..]
      decreases s.Length - n
    {
      n := n + 1;
    }
    assert s[..][..n] == s[..n];
    v := Str(s[..n]);
    CStringIsPrefix(s[..], n);
  }

  /** What `free_parsed` hands back to the allocator. */
  datatype Freed = NothingFreed | StringFreed(s: CStr) | ArrayFreed(a: JArray) | ObjectFreed(o: JObject)

  /** `free_parsed()`: only strings, arrays and objects own storage to
      release; for every other tag it does nothing. */
  function FreeParsed(v: Value): (f: Freed)
    ensures f.NothingFreed? <==> !(IsString(v) || IsArray(v) || IsObject(v))
    ensures f.StringFreed? ==> v == Str(f.s)
    ensures f.ArrayFreed? ==> v == Arr(f.a)
    ensures f.ObjectFreed? ==> v == Obj(f.o)
  {
    match v
    case Str(s) => StringFreed(s)
    case Arr(a) => ArrayFreed(a)
    case Obj(o) => ObjectFreed(o)
    case _ => NothingFreed
  }

  /** `isInvalid()` as written compares the `char` field `type` with 255.
      Where `char` is signed, storing 255 leaves -1 in the field, and -1 is
      never 255. */
  predicate IsInvalidAsWritten(v: Value)
  {
    Signed(Tag(v)) == JSON_INVALID
  }

  /** On a signed-`char` target no value, not even `invalid()`, passes the
      test as written. */
  lemma InvalidNeverDetected(v: Value)
    ensures IsInvalid(MakeInvalid()) && !IsInvalidAsWritten(v)
  {
  }

  /** The object a value refers to directly, if any. */
  function NodeOf(v: Value): set<object>
  {
    match v
    case Arr(a) => {a}
    case Obj(o) => {o}
    case _ => {}
  }

  /** Every object the tree below `v` is stored in. */
  ghost function Fp(v: Value): set<object>
    reads NodeOf(v)
  {
    match v
    case Arr(a) => {a} + a.Repr
    case Obj(o) => {o} + o.Repr
    case _ => {}
  }

  /** The container below `v` (and, recursively, below it) is well formed. */
  ghost predicate ValueValid(v: Value)
    reads NodeOf(v), Fp(v)
    decreases Fp(v), 2
  {
    match v
    case Arr(a) => a.Repr <= Fp(v) && a.Valid()
    case Obj(o) => o.Repr <= Fp(v) && o.Valid()
    case _ => true
  }

  /** The tree `v` denotes. */
  ghost function TreeOf(v: Value): Json
    reads NodeOf(v)
  {
    match v
    case Null => JNull
    case Bool(b) => JBool(b)
    case Int(i) => JInt(i)
    case Float(f) => JFloat(f)
    case Str(s) => JStr(s)
    case Arr(a) => JArr(a.Items)
    case Obj(o) => JObj(o.Slots)
    case Invalid => JInvalid
  }

  /** The value that denotes a tree with no array or object in it. */
  function Scalar(t: Json): (v: Value)
    requires !t.JArr? && !t.JObj?
    ensures NodeOf(v) == {} && TreeOf(v) == t
  {
    match t
    case JNull => Null
    case JBool(b) => Bool(b)
    case JInt(i) => Int(i)
    case JFloat(f) => Float(f)
    case JStr(s) => Str(s)
    case JInvalid => Invalid
  }

  /** No container below `v` is reachable along two paths. */
  ghost predicate ValueTree(v: Value)
    reads NodeOf(v), Fp(v)
    requires ValueValid(v)
    decreases Fp(v), 3
  {
    match v
    case Arr(a) => a.Tree()
    case Obj(o) => o.Tree()
    case _ => true
  }

  /** What `clone` leaves in an element or slot value `u` it visits: a value
      of the same kind, and `u` itself unless `u` is an array or object. */
  predicate Renewed(u: Value, w: Value)
  {
    Tag(u) == Tag(w) && (NodeOf(u) == {} ==> w == u)
  }

  /** `v` is well formed, denotes `t` and has no shared container. */
  ghost predicate Good(v: Value, t: Json)
    reads NodeOf(v), Fp(v)
  {
    ValueValid(v) && TreeOf(v) == t && ValueTree(v)
  }

  /** The footprint of each value of `s`. */
  ghost function Footprints(s: seq<Value>): (r: seq<set<object>>)
    reads set k, o | 0 <= k < |s| && o in NodeOf(s[k]) :: o
    ensures |r| == |s| && forall k :: 0 <= k < |s| ==> r[k] == Fp(s[k])
  {
    if s == [] then [] else [Fp(s[0])] + Footprints(s[1..])
  }
  /** The values held in a sequence of map slots, tombstones included. */
  function SlotValues<T>(s: seq<Slot<T>>): (r: seq<T>)
    ensures |r| == |s| && forall k :: 0 <= k < |s| ==> r[k] == s[k].value
  {
    if s == [] then [] else [s[0].value] + SlotValues(s[1..])
  }


  /** `Json::Array`, an `AList<Value>`. */
  /** Element `k` of the receiver's elements `e` and of the copy's
      elements `e0` during `clone`: both denote tree `t[k]`, neither shares
      a container within itself, and both lie in region `reg[k]`. */
  ghost predicate Twin(e: seq<Value>, e0: seq<Value>, t: seq<Json>, reg: seq<set<object>>, k: int)
    reads if 0 <= k < |e| && k < |e0| then NodeOf(e[k]) + Fp(e[k]) + NodeOf(e0[k]) + Fp(e0[k]) else {}
  {
    && 0 <= k < |e| && k < |e0| && k < |t| && k < |reg|
    && Good(e[k], t[k]) && Good(e0[k], t[k]) && Fp(e[k]) + Fp(e0[k]) <= reg[k]
  }

  /** Element `k` of `e` shares no storage with element `k` of `e0`. */
  ghost predicate Split(e: seq<Value>, e0: seq<Value>, k: int)
    reads if 0 <= k < |e| && k < |e0| then NodeOf(e[k]) + NodeOf(e0[k]) else {}
  {
    0 <= k < |e| && k < |e0| && Fp(e[k]) !! Fp(e0[k])
  }

  class JArray {
    const list: AList<Value>
    ghost var Items: seq<Json>
    ghost var Repr: set<object>

    /** The objects this container itself is made of. */
    ghost function Own(): set<object>
      reads this, list
    {
      {this, list, list.elements}
    }

    ghost predicate Valid()
      reads this, Repr
      decreases Repr, 1
    {
      && this in Repr && list in Repr && list.elements in Repr
      && list.Valid()
      && |list.Contents()| == |Items|
      && forall i :: 0 <= i < |Items| ==> Holds(list.elements[i], Items[i])
    }

    /** Element `v` is stored in this container's footprint, apart from the
        container's own storage, and denotes `t`. */
    ghost predicate Holds(v: Value, t: Json)
      reads this, list, Repr
      requires this in Repr
      decreases Repr, 0
    {
      && NodeOf(v) <= Repr && Fp(v) <= Repr
      && Fp(v) !! {this, list, list.elements}
      && ValueValid(v)
      && TreeOf(v) == t
    }

    /** `Array()`: a new, empty array. */
    constructor ()
      ensures Valid() && fresh(Repr)
      ensures Items == []
    {
      list := new AList();
      Items := [];
      new;
      Repr := {this, list, list.elements};
    }

    /** `append(v)`: `v` joins the end, all earlier elements are unchanged. */
    method Append(v: Value)
      requires Valid() && ValueValid(v)
      requires Fp(v) !! Own()
      modifies this, list, list.elements
      ensures Valid()
      ensures Items == old(Items) + [old(TreeOf(v))]
      ensures Repr == old(Repr + Fp(v)) + {list.elements}
      ensures list.elements == old(list.elements) || fresh(list.elements)
    {
      ghost var tv := TreeOf(v);
      ghost var fv := Fp(v);
      list.Append(v);
      Items := Items + [tv];
      Repr := Repr + fv + {list.elements};
      AppendKeepsValid(v);
    }

    /** The invariant survives `append`: earlier elements are untouched
        values, and the new last element is `v`. */
    twostate lemma AppendKeepsValid(v: Value)
      requires old(Valid()) && old(ValueValid(v)) && old(Fp(v) !! Own())
      requires unchanged(old(Repr + Fp(v)) - old(Own()))
      requires list.elements == old(list.elements) || fresh(list.elements)
      requires list.Valid() && list.Contents() == old(list.Contents()) + [v]
      requires Items == old(Items) + [old(TreeOf(v))]
      requires Repr == old(Repr + Fp(v)) + {list.elements}
      ensures Valid()
    {
      ValueKept(v);
      forall i | 0 <= i < |Items|
        ensures Holds(list.elements[i], Items[i])
      {
        assert list.elements[i] == list.Contents()[i];
        if i < |Items| - 1 {
          assert old(Holds(list.elements[i], Items[i]));
          ValueKept(list.elements[i]);
        }
      }
    }
    /** No container is reachable from two elements: the elements'
        footprints are disjoint, and so on all the way down. A parsed
        value has this shape; `clone` is modelled on values that have it. */
    ghost predicate Tree()
      reads this, Repr
      requires Valid()
      decreases Repr, 2
    {
      && (forall i, j :: 0 <= i < j < |Items| ==>
            Holds(list.elements[i], Items[i]) && Holds(list.elements[j], Items[j])
            && Fp(list.elements[i]) !! Fp(list.elements[j]))
      && forall i :: 0 <= i < |Items| ==> Holds(list.elements[i], Items[i]) && ValueTree(list.elements[i])
    }

    /** `Array(Array &source)`: the copy constructor of `AList` duplicates
        the backing store, so the new array holds the very values (and
        references) `source` holds. */
    constructor Copy(source: JArray)
      requires source.Valid()
      ensures Valid() && fresh(Own())
      ensures Items == source.Items && list.Contents() == source.list.Contents()
      ensures Repr == Own() + (source.Repr - source.Own())
    {
      list := new AList.Copy(source.list);
      Items := source.Items;
      new;
      Repr := {this, list, list.elements} + (source.Repr - source.Own());
      assert forall i :: 0 <= i < |Items| ==> list.elements[i] == source.list.elements[i];
    }

    /** `clone()`: a new array is made with the copy constructor; then each
        array or object element of THIS array (not of the copy) is replaced
        by a clone of it. So the copy keeps the original containers and the
        receiver gets the new ones. Both denote the tree the receiver
        denoted, and they share no storage. */
    method Clone() returns (copy: JArray)
      requires Valid() && Tree()
      modifies Repr
      decreases Repr, 4
      ensures Valid() && Tree() && copy.Valid() && copy.Tree()
      ensures Items == old(Items) && copy.Items == old(Items)
      ensures copy.list.Contents() == old(list.Contents())
      ensures list.elements == old(list.elements) && |list.Contents()| == |Items|
      ensures forall k :: 0 <= k < |Items| ==>
        Renewed(old(list.Contents())[k], list.Contents()[k]) && fresh(NodeOf(list.Contents()[k]))
      ensures fresh(copy.Own()) && fresh(Repr + copy.Repr - old(Repr))
      ensures Repr !! copy.Repr
    {
      copy := new JArray.Copy(this);
      Rebuild(copy);
    }

    /** `clone` after the copy constructor, which left `copy` with the same
        elements as the receiver. */
    method Rebuild(copy: JArray)
      requires Valid() && Tree()
      requires copy.list.Valid() && copy.list.Contents() == list.Contents() && copy.Items == Items
      requires copy.Own() !! Repr
      modifies Repr, copy
      decreases Repr, 3
      ensures Valid() && Tree() && copy.Valid() && copy.Tree()
      ensures Items == old(Items) && copy.Items == old(Items)
      ensures copy.list.Contents() == old(list.Contents())
      ensures list.elements == old(list.elements) && |list.Contents()| == |Items|
      ensures forall k :: 0 <= k < |Items| ==>
        Renewed(old(list.Contents())[k], list.Contents()[k]) && fresh(NodeOf(list.Contents()[k]))
      ensures copy.Own() == old(copy.Own()) && fresh(Repr + copy.Repr - old(Repr) - old(copy.Own()))
      ensures Repr !! copy.Repr
    {
      ghost var e0 := list.Contents();
      ghost var reg0 := Footprints(e0);
      Started(e0, reg0);
      Finish(copy, e0, reg0);
    }

    /** The loop over the elements, then each of the two arrays takes the
        storage of its own elements. */
    method Finish(copy: JArray, ghost e0: seq<Value>, ghost reg0: seq<set<object>>)
      requires Valid() && e0 == list.Contents() && |e0| == |reg0| == |Items|
      requires forall k :: 0 <= k < |e0| ==> Twin(e0, e0, Items, reg0, k) && reg0[k] <= Repr - Own()
      requires forall k, j :: 0 <= k < j < |e0| ==> reg0[k] !! reg0[j]
      requires copy.list.Valid() && copy.list.Contents() == e0 && copy.Items == Items
      requires copy.Own() !! Repr
      modifies Repr, copy
      decreases Repr, 2
      ensures Valid() && Tree() && copy.Valid() && copy.Tree()
      ensures Items == old(Items) && copy.Items == old(Items)
      ensures copy.list.Contents() == e0
      ensures list.elements == old(list.elements) && |list.Contents()| == |Items|
      ensures forall k :: 0 <= k < |Items| ==>
        Renewed(e0[k], list.Contents()[k]) && fresh(NodeOf(list.Contents()[k]))
      ensures copy.Own() == old(copy.Own()) && fresh(Repr + copy.Repr - old(Repr) - old(copy.Own()))
      ensures Repr !! copy.Repr
    {
      ghost var e, reg, born := CloneElements(e0, reg0, copy.Own());
      Adopt(copy, e, e0, reg, reg0, born, old(Repr));
    }

    /** The end of `clone`: the receiver and the copy each take the storage
        of their own elements as their footprint, and both are valid trees
        again, apart from each other. Their storage was there before, in
        `bound`, or is new, in `born`. */
    ghost method Adopt(copy: JArray, e: seq<Value>, e0: seq<Value>, reg: seq<set<object>>,
                       reg0: seq<set<object>>, born: set<object>, bound: set<object>)
      requires list.Valid() && list.Contents() == e && |e| == |Items|
      requires copy.list.Valid() && copy.list.Contents() == e0 && copy.Items == Items
      requires |e0| == |reg| == |reg0| == |Items| && Own() !! copy.Own()
      requires forall k :: 0 <= k < |e| ==> Twin(e, e0, Items, reg, k) && Split(e, e0, k)
      requires forall k, j :: 0 <= k < j < |reg| ==> reg[k] !! reg[j]
      requires forall k :: 0 <= k < |reg| ==> reg[k] !! Own() + copy.Own() && reg[k] <= reg0[k] + born
      requires forall k :: 0 <= k < |reg0| ==> reg0[k] <= bound
      requires Own() <= bound
      modifies this, copy
      ensures Items == old(Items) && copy.Items == old(copy.Items)
      ensures list.Contents() == e && copy.list.Contents() == e0
      ensures Valid() && Tree() && copy.Valid() && copy.Tree()
      ensures Repr + copy.Repr - bound <= copy.Own() + born
      ensures Repr !! copy.Repr
    {
      var mine, theirs := Parted(e, e0, Items, reg, reg0, born, bound, Own() + copy.Own());
      Repr := Own() + mine;
      copy.Repr := copy.Own() + theirs;
      AllKept(Stored(e, Items, mine));
      AllKept(Stored(e0, Items, theirs));
      Built(e, mine);
      copy.Built(e0, theirs);
    }

    /** The start of `clone`'s loop: each element, paired with itself,
        denotes its tree and lies in its own footprint, apart from the
        array's own storage and from every other element's. */
    lemma Started(e0: seq<Value>, reg0: seq<set<object>>)
      requires Valid() && Tree() && e0 == list.Contents() && reg0 == Footprints(e0)
      ensures |e0| == |Items| == |reg0|
      ensures forall k :: 0 <= k < |e0| ==> Twin(e0, e0, Items, reg0, k) && reg0[k] <= Repr - Own()
      ensures forall k, j :: 0 <= k < j < |e0| ==> reg0[k] !! reg0[j]
    {
      assert forall k :: 0 <= k < |e0| ==> e0[k] == list.elements[k];
    }

    /** The loop of `clone`, over elements whose footprints are the disjoint
        regions `reg0`. Each region grows only by new objects. */
    method CloneElements(ghost e0: seq<Value>, ghost reg0: seq<set<object>>, ghost keep: set<object>)
      returns (ghost e: seq<Value>, ghost reg: seq<set<object>>, ghost born: set<object>)
      requires list.Valid() && list.Contents() == e0 && |Items| == |e0| == |reg0|
      requires this in Repr && Own() !! keep && Repr !! keep
      requires forall k :: 0 <= k < |e0| ==> Twin(e0, e0, Items, reg0, k)
      requires forall k :: 0 <= k < |e0| ==> reg0[k] <= Repr - Own()
      requires forall k, j :: 0 <= k < j < |e0| ==> reg0[k] !! reg0[j]
      requires forall k :: 0 <= k < |e0| ==> reg0[k] !! keep
      modifies Repr - Own(), list.elements
      decreases Repr, 1
      ensures list.Valid() && list.elements == old(list.elements) && list.Contents() == e
      ensures |e| == |e0| == |reg|
      ensures forall k :: 0 <= k < |e0| ==> Twin(e, e0, Items, reg, k) && Split(e, e0, k)
      ensures forall k :: 0 <= k < |e0| ==> Renewed(e0[k], e[k]) && fresh(NodeOf(e[k]))
      ensures forall k, j :: 0 <= k < j < |e0| ==> reg[k] !! reg[j]
      ensures forall k :: 0 <= k < |e0| ==> reg[k] !! Own() + keep && reg[k] <= reg0[k] + born
      ensures fresh(born) && unchanged(keep)
    {
      ghost var avoid := Own() + keep;
      e, reg, born := e0, reg0, {};
      var i := 0;
      while i < list.Size()
        invariant 0 <= i <= |e0| == |e| == list.count == |reg| && list.Valid()
        invariant list.elements == old(list.elements) && list.Contents() == e
        invariant forall k :: 0 <= k < |e0| ==> Twin(e, e0, Items, reg, k)
        invariant forall k :: i <= k < |e0| ==> e[k] == e0[k] && reg[k] == reg0[k]
        invariant forall k :: 0 <= k < i ==> Split(e, e0, k)
        invariant forall k :: 0 <= k < i ==> Renewed(e0[k], e[k]) && fresh(NodeOf(e[k]))
        invariant forall k, j :: 0 <= k < j < |e0| ==> reg[k] !! reg[j]
        invariant forall k :: 0 <= k < |e0| ==> reg[k] !! avoid && reg[k] <= reg0[k] + born
        invariant fresh(born)
      {
        ghost var others := Apart(reg, i, avoid);
        ghost var w: Value, add: set<object>, e1: seq<Value>, reg1: seq<set<object>>;
        w, add, e1, reg1 := CloneElement(i, e, e0, Items, reg, others);
        Grown(reg, reg0, born, i, add, avoid, others);
        born := born + (add - reg[i]);
        e, reg := e1, reg1;
        i := i + 1;
      }
    }

    /** A list of well-formed, pairwise disjoint element values, with
        `Repr` the list's storage and theirs, makes a valid array with no
        shared container. */
    lemma Built(e: seq<Value>, parts: set<object>)
      requires list.Valid() && list.Contents() == e && |e| == |Items|
      requires Repr == Own() + parts
      requires parts !! Own()
      requires forall k :: 0 <= k < |e| ==> Good(e[k], Items[k]) && Fp(e[k]) <= parts
      requires forall k, j :: 0 <= k < j < |e| ==> Fp(e[k]) !! Fp(e[j])
      ensures Valid() && Tree()
    {
      assert forall k :: 0 <= k < |e| ==> list.elements[k] == e[k];
    }

    /** One turn of `clone`'s loop: element `i`, if it is an array or an
        object, is replaced by a clone of it, while the original container,
        still denoting the same tree, now belongs to the copy alone. Region
        `i` grows by `add`, whose objects outside it are new; nothing outside
        region `i` and the list's storage changes, so every other pair keeps
        its tree. */
    method CloneElement(i: nat, ghost e: seq<Value>, ghost e0: seq<Value>, ghost t: seq<Json>,
                        ghost reg: seq<set<object>>, ghost others: set<object>)
      returns (ghost w: Value, ghost add: set<object>, ghost e1: seq<Value>, ghost reg1: seq<set<object>>)
      requires list.Valid() && i < list.count == |e| == |e0| == |t| == |reg| && list.Contents() == e
      requires e[i] == e0[i]
      requires forall k :: 0 <= k < |e| ==> Twin(e, e0, t, reg, k)
      requires forall k :: 0 <= k < i ==> Split(e, e0, k)
      requires forall k :: 0 <= k < |reg| && k != i ==> reg[k] <= others
      requires reg[i] !! Own() && others !! reg[i] + {list.elements}
      modifies reg[i], list.elements
      decreases reg[i], 6
      ensures e1 == e[i := w] && reg1 == reg[i := reg[i] + add]
      ensures list.Valid() && list.Contents() == e1
      ensures forall k :: 0 <= k < |e| ==> Twin(e1, e0, t, reg1, k)
      ensures forall k :: 0 <= k < i + 1 ==> Split(e1, e0, k)
      ensures Renewed(e[i], w) && fresh(NodeOf(w))
      ensures fresh(add - reg[i])
    {
      assert Twin(e, e0, t, reg, i);
      var v := list.Get(i);
      if v.Arr? {
        w := CloneArrayAt(i, v.a, t[i]);
      } else if v.Obj? {
        w := CloneObjectAt(i, v.o, t[i]);
      } else {
        w := v;
      }
      add := Fp(w) + Fp(e0[i]);
      e1, reg1 := e[i := w], reg[i := reg[i] + add];
      Advanced(Turn(e, e0, t, i, reg, others), w);
    }

    /** Element `i` is the array `a`: it is replaced by `a.clone()`. */
    method CloneArrayAt(i: nat, a: JArray, ghost t: Json) returns (ghost w: Value)
      requires list.Valid() && i < list.count && list.Contents()[i] == Arr(a)
      requires Good(Arr(a), t) && Fp(Arr(a)) !! Own()
      modifies a.Repr, list.elements
      decreases a.Repr, 5
      ensures list.Valid() && list.Contents() == old(list.Contents())[i := w]
      ensures Good(w, t) && Good(Arr(a), t)
      ensures w.Arr? && fresh(w.a)
      ensures Fp(w) !! Fp(Arr(a))
      ensures fresh(Fp(w) + Fp(Arr(a)) - old(Fp(Arr(a))))
    {
      var c := a.Clone();
      ArrayCloned(a, c, t);
      list.Put(i, Arr(c));
      w := Arr(c);
    }

    /** Element `i` is the object `o`: it is replaced by `o.clone()`. */
    method CloneObjectAt(i: nat, o: JObject, ghost t: Json) returns (ghost w: Value)
      requires list.Valid() && i < list.count && list.Contents()[i] == Obj(o)
      requires Good(Obj(o), t) && Fp(Obj(o)) !! Own()
      modifies o.Repr, list.elements
      decreases o.Repr, 5
      ensures list.Valid() && list.Contents() == old(list.Contents())[i := w]
      ensures Good(w, t) && Good(Obj(o), t)
      ensures w.Obj? && fresh(w.o)
      ensures Fp(w) !! Fp(Obj(o))
      ensures fresh(Fp(w) + Fp(Obj(o)) - old(Fp(Obj(o))))
    {
      var c := o.Clone();
      ObjectCloned(o, c, t);
      list.Put(i, Obj(c));
      w := Obj(c);
    }
  }

  /** `Json::Object`, an `AMap<Value>`. */
  class JObject {
    const dict: AMap<Value>
    ghost var Slots: seq<Slot<Json>>
    ghost var Repr: set<object>

    ghost function Own(): set<object>
      reads this, dict, dict.list
    {
      {this, dict, dict.list, dict.list.elements}
    }

    ghost predicate Valid()
      reads this, Repr
      decreases Repr, 1
    {
      && this in Repr && dict in Repr && dict.list in Repr && dict.list.elements in Repr
      && dict.Valid() && dict.blank == Null
      && |dict.Slots()| == |Slots|
      && forall i :: 0 <= i < |Slots| ==> Holds(dict.list.elements[i], Slots[i])
    }

    /** `Valid()` without the key order of the map: all that reading the
        slots in index order needs. */
    ghost predicate Readable()
      reads this, Repr
      decreases Repr, 1
    {
      && this in Repr && dict in Repr && dict.list in Repr && dict.list.elements in Repr
      && dict.list.Valid()
      && |dict.list.Contents()| == |Slots|
      && forall i :: 0 <= i < |Slots| ==> Holds(dict.list.elements[i], Slots[i])
    }

    /** Map slot `kv` is stored in this container's footprint, apart from
        the container's own storage, and denotes slot `t`. */
    ghost predicate Holds(kv: Slot<Value>, t: Slot<Json>)
      reads this, dict, dict.list, Repr
      requires this in Repr
      decreases Repr, 0
    {
      && kv.valid == t.valid && kv.key == t.key
      && NodeOf(kv.value) <= Repr && Fp(kv.value) <= Repr
      && Fp(kv.value) !! {this, dict, dict.list, dict.list.elements}
      && ValueValid(kv.value)
      && TreeOf(kv.value) == t.value
    }

    /** `Object()`: a new, empty object; a new slot's value is null. */
    constructor ()
      ensures Valid() && fresh(Repr)
      ensures Slots == []
    {
      dict := new AMap(Null);
      Slots := [];
      new;
      Repr := {this, dict, dict.list, dict.list.elements};
    }

    /** `(*this)[key] = v`: the slot for `key` is claimed as `get_create`
        does and then holds `v`. */
    method Set(key: Key, v: Value)
      requires Valid() && ValueValid(v)
      requires Fp(v) !! Own()
      modifies this, dict.list, dict.list.elements
      ensures Valid()
      ensures Slots == Assign(old(Slots), key, JNull, old(TreeOf(v)))
      ensures Repr == old(Repr + Fp(v)) + {dict.list.elements}
      ensures dict.list.elements == old(dict.list.elements) || fresh(dict.list.elements)
    {
      ghost var tv := TreeOf(v);
      ghost var fv := Fp(v);
      dict.Set(key, v);
      Slots := Assign(Slots, key, JNull, tv);
      Repr := Repr + fv + {dict.list.elements};
      SetKeepsValid(Slot(true, key, v));
    }

    /** The invariant survives `set(kv.key, kv.value)`: the storage of every
        value reachable from the slots lies outside what `set` writes to. */
    twostate lemma SetKeepsValid(kv: Slot<Value>)
      requires old(Valid()) && old(ValueValid(kv.value)) && old(Fp(kv.value) !! Own())
      requires unchanged(old(Repr + Fp(kv.value)) - old(Own()))
      requires dict.list.elements == old(dict.list.elements) || fresh(dict.list.elements)
      requires dict.Valid() && dict.Slots() == Assign(old(dict.Slots()), kv.key, Null, kv.value)
      requires Slots == Assign(old(Slots), kv.key, JNull, old(TreeOf(kv.value)))
      requires Repr == old(Repr + Fp(kv.value)) + {dict.list.elements}
      ensures Valid()
    {
      var v := kv.value;
      ValueKept(v);
      var before, js := old(dict.Slots()), old(Slots);
      var p := SetShapes(before, js, dict.Slots(), Slots, kv.key, v, TreeOf(v));
      forall i | 0 <= i < |Slots|
        ensures Holds(dict.list.elements[i], Slots[i])
      {
        assert dict.list.elements[i] == dict.Slots()[i];
        if i != p {
          assert old(Holds(before[i], js[i]));
          ValueKept(before[i].value);
        }
      }
    }
    /** No container is reachable from two slots, all the way down. */
    ghost predicate Tree()
      reads this, Repr
      requires Valid()
      decreases Repr, 2
    {
      && (forall i, j :: 0 <= i < j < |Slots| ==>
            Holds(dict.list.elements[i], Slots[i]) && Holds(dict.list.elements[j], Slots[j])
            && Fp(dict.list.elements[i].value) !! Fp(dict.list.elements[j].value))
      && forall i :: 0 <= i < |Slots| ==>
            Holds(dict.list.elements[i], Slots[i]) && ValueTree(dict.list.elements[i].value)
    }

    /** `Object(Object &source)`: the slots are copied one for one,
        tombstones included, values and references as they are. */
    constructor Copy(source: JObject)
      requires source.Valid()
      ensures Valid() && fresh(Own())
      ensures Slots == source.Slots && dict.Slots() == source.dict.Slots()
      ensures Repr == Own() + (source.Repr - source.Own())
    {
      dict := new AMap.Copy(source.dict);
      Slots := source.Slots;
      new;
      Repr := {this, dict, dict.list, dict.list.elements} + (source.Repr - source.Own());
      assert forall i :: 0 <= i < |Slots| ==> dict.list.elements[i] == source.dict.list.elements[i];
    }

    /** `clone()`: a new object is made with the copy constructor; then the
        value of each slot of THIS object (tombstones too) that is an array
        or an object is replaced by a clone of it. The copy keeps the
        original containers and the receiver gets the new ones; both denote
        the tree the receiver denoted and they share no storage. */
    method Clone() returns (copy: JObject)
      requires Valid() && Tree()
      modifies Repr
      decreases Repr, 4
      ensures Valid() && Tree() && copy.Valid() && copy.Tree()
      ensures Slots == old(Slots) && copy.Slots == old(Slots)
      ensures copy.dict.Slots() == old(dict.Slots())
      ensures dict.list.elements == old(dict.list.elements) && SameShape(dict.Slots(), old(dict.Slots()))
      ensures forall k :: 0 <= k < |Slots| ==>
        Renewed(old(dict.Slots())[k].value, dict.Slots()[k].value) && fresh(NodeOf(dict.Slots()[k].value))
      ensures fresh(copy.Own()) && fresh(Repr + copy.Repr - old(Repr))
      ensures Repr !! copy.Repr
    {
      copy := new JObject.Copy(this);
      Rebuild(copy);
    }

    /** `clone` after the copy constructor, which left `copy` with the same
        slots as the receiver. */
    method Rebuild(copy: JObject)
      requires Valid() && Tree()
      requires copy.dict.Valid() && copy.dict.Slots() == dict.Slots() && copy.Slots == Slots && copy.dict.blank == Null
      requires copy.Own() !! Repr
      modifies Repr, copy
      decreases Repr, 3
      ensures Valid() && Tree() && copy.Valid() && copy.Tree()
      ensures Slots == old(Slots) && copy.Slots == old(Slots)
      ensures copy.dict.Slots() == old(dict.Slots())
      ensures dict.list.elements == old(dict.list.elements) && SameShape(dict.Slots(), old(dict.Slots()))
      ensures forall k :: 0 <= k < |Slots| ==>
        Renewed(old(dict.Slots())[k].value, dict.Slots()[k].value) && fresh(NodeOf(dict.Slots()[k].value))
      ensures copy.Own() == old(copy.Own()) && fresh(Repr + copy.Repr - old(Repr) - old(copy.Own()))
      ensures Repr !! copy.Repr
    {
      ghost var s0 := dict.Slots();
      ghost var e0, t := SlotValues(s0), SlotValues(Slots);
      ghost var reg0 := Footprints(e0);
      Started(s0, e0, t, reg0);
      Finish(copy, s0, e0, t, reg0);
    }

    /** The loop over the slots, then each of the two objects takes the
        storage of its own slot values. */
    method Finish(copy: JObject, ghost s0: seq<Slot<Value>>, ghost e0: seq<Value>, ghost t: seq<Json>,
                  ghost reg0: seq<set<object>>)
      requires Valid() && s0 == dict.Slots() && e0 == SlotValues(s0) && t == SlotValues(Slots)
      requires |s0| == |e0| == |t| == |reg0| == |Slots| && SameShape(s0, Slots)
      requires forall k :: 0 <= k < |e0| ==> Twin(e0, e0, t, reg0, k) && reg0[k] <= Repr - Own()
      requires forall k, j :: 0 <= k < j < |e0| ==> reg0[k] !! reg0[j]
      requires copy.dict.Valid() && copy.dict.Slots() == s0 && copy.Slots == Slots && copy.dict.blank == Null
      requires copy.Own() !! Repr
      modifies Repr, copy
      decreases Repr, 2
      ensures Valid() && Tree() && copy.Valid() && copy.Tree()
      ensures Slots == old(Slots) && copy.Slots == old(Slots)
      ensures copy.dict.Slots() == s0
      ensures dict.list.elements == old(dict.list.elements) && SameShape(dict.Slots(), s0)
      ensures forall k :: 0 <= k < |Slots| ==>
        Renewed(s0[k].value, dict.Slots()[k].value) && fresh(NodeOf(dict.Slots()[k].value))
      ensures copy.Own() == old(copy.Own()) && fresh(Repr + copy.Repr - old(Repr) - old(copy.Own()))
      ensures Repr !! copy.Repr
    {
      ghost var s, e, reg, born := CloneSlots(s0, e0, t, reg0, copy.Own());
      Adopt(copy, s, s0, e, e0, t, reg, reg0, born, old(Repr));
    }

    /** The start of `clone`'s loop: each slot value, paired with itself,
        denotes its tree and lies in its own footprint, apart from the
        object's own storage and from every other slot value's. */
    lemma Started(s0: seq<Slot<Value>>, e0: seq<Value>, t: seq<Json>, reg0: seq<set<object>>)
      requires Valid() && Tree() && s0 == dict.Slots()
      requires e0 == SlotValues(s0) && t == SlotValues(Slots) && reg0 == Footprints(e0)
      ensures |s0| == |e0| == |t| == |reg0| == |Slots| && SameShape(s0, Slots)
      ensures forall k :: 0 <= k < |e0| ==> Twin(e0, e0, t, reg0, k) && reg0[k] <= Repr - Own()
      ensures forall k, j :: 0 <= k < j < |e0| ==> reg0[k] !! reg0[j]
    {
      assert forall k :: 0 <= k < |s0| ==> s0[k] == dict.list.elements[k];
    }

    /** The loop of `clone`, over the slot values `e0` of the slots `s0`,
        whose footprints are the disjoint regions `reg0`. Each region grows
        only by new objects; keys and tombstones stay as they are. */
    method CloneSlots(ghost s0: seq<Slot<Value>>, ghost e0: seq<Value>, ghost t: seq<Json>,
                      ghost reg0: seq<set<object>>, ghost keep: set<object>)
      returns (ghost s: seq<Slot<Value>>, ghost e: seq<Value>, ghost reg: seq<set<object>>, ghost born: set<object>)
      requires dict.list.Valid() && dict.list.Contents() == s0 && |s0| == |e0| == |t| == |reg0|
      requires forall k :: 0 <= k < |s0| ==> s0[k].value == e0[k]
      requires this in Repr && Own() !! keep && Repr !! keep
      requires forall k :: 0 <= k < |e0| ==> Twin(e0, e0, t, reg0, k)
      requires forall k :: 0 <= k < |e0| ==> reg0[k] <= Repr - Own()
      requires forall k, j :: 0 <= k < j < |e0| ==> reg0[k] !! reg0[j]
      requires forall k :: 0 <= k < |e0| ==> reg0[k] !! keep
      modifies Repr - Own(), dict.list.elements
      decreases Repr, 1
      ensures dict.list.Valid() && dict.list.elements == old(dict.list.elements) && dict.list.Contents() == s
      ensures |s| == |e| == |e0| == |reg| && SameShape(s, s0)
      ensures forall k :: 0 <= k < |s| ==> s[k].value == e[k]
      ensures forall k :: 0 <= k < |e0| ==> Twin(e, e0, t, reg, k) && Split(e, e0, k)
      ensures forall k :: 0 <= k < |e0| ==> Renewed(e0[k], e[k]) && fresh(NodeOf(e[k]))
      ensures forall k, j :: 0 <= k < j < |e0| ==> reg[k] !! reg[j]
      ensures forall k :: 0 <= k < |e0| ==> reg[k] !! Own() + keep && reg[k] <= reg0[k] + born
      ensures fresh(born) && unchanged(keep)
    {
      ghost var avoid := Own() + keep;
      s, e, reg, born := s0, e0, reg0, {};
      var i := 0;
      while i < dict.list.Size()
        invariant 0 <= i <= |e0| == |e| == |s| == dict.list.count == |reg| && dict.list.Valid()
        invariant dict.list.elements == old(dict.list.elements) && dict.list.Contents() == s
        invariant SameShape(s, s0) && forall k :: 0 <= k < |s| ==> s[k].value == e[k]
        invariant forall k :: 0 <= k < |e0| ==> Twin(e, e0, t, reg, k)
        invariant forall k :: i <= k < |e0| ==> e[k] == e0[k] && reg[k] == reg0[k]
        invariant forall k :: 0 <= k < i ==> Split(e, e0, k)
        invariant forall k :: 0 <= k < i ==> Renewed(e0[k], e[k]) && fresh(NodeOf(e[k]))
        invariant forall k, j :: 0 <= k < j < |e0| ==> reg[k] !! reg[j]
        invariant forall k :: 0 <= k < |e0| ==> reg[k] !! avoid && reg[k] <= reg0[k] + born
        invariant fresh(born)
      {
        ghost var others := Apart(reg, i, avoid);
        ghost var w: Value, add: set<object>, s1: seq<Slot<Value>>, e1: seq<Value>, reg1: seq<set<object>>;
        w, add, s1, e1, reg1 := CloneSlot(i, s0, s, e, e0, t, reg, others);
        Grown(reg, reg0, born, i, add, avoid, others);
        born := born + (add - reg[i]);
        s, e, reg := s1, e1, reg1;
        i := i + 1;
      }
    }

    /** One turn of `clone`'s loop: the value of slot `i`, if it is an array
        or an object, is replaced by a clone of it; the slot keeps its key
        and its valid flag. Region `i` grows by `add`, whose objects outside
        it are new, and every other slot value keeps its tree. */
    method CloneSlot(i: nat, ghost s0: seq<Slot<Value>>, ghost s: seq<Slot<Value>>, ghost e: seq<Value>, ghost e0: seq<Value>,
                     ghost t: seq<Json>, ghost reg: seq<set<object>>, ghost others: set<object>)
      returns (ghost w: Value, ghost add: set<object>, ghost s1: seq<Slot<Value>>, ghost e1: seq<Value>,
               ghost reg1: seq<set<object>>)
      requires dict.list.Valid() && i < dict.list.count == |s| == |e| == |e0| == |t| == |reg|
      requires dict.list.Contents() == s && e[i] == e0[i] && SameShape(s, s0)
      requires forall k :: 0 <= k < |s| ==> s[k].value == e[k]
      requires forall k :: 0 <= k < |e| ==> Twin(e, e0, t, reg, k)
      requires forall k :: 0 <= k < i ==> Split(e, e0, k)
      requires forall k :: 0 <= k < |reg| && k != i ==> reg[k] <= others
      requires reg[i] !! Own() && others !! reg[i] + {dict.list.elements}
      modifies reg[i], dict.list.elements
      decreases reg[i], 6
      ensures s1 == s[i := s[i].(value := w)] && e1 == e[i := w] && reg1 == reg[i := reg[i] + add]
      ensures SameShape(s1, s0) && forall k :: 0 <= k < |s1| ==> s1[k].value == e1[k]
      ensures dict.list.Valid() && dict.list.Contents() == s1
      ensures forall k :: 0 <= k < |e| ==> Twin(e1, e0, t, reg1, k)
      ensures forall k :: 0 <= k < i + 1 ==> Split(e1, e0, k)
      ensures Renewed(e[i], w) && fresh(NodeOf(w))
      ensures fresh(add - reg[i])
    {
      assert Twin(e, e0, t, reg, i);
      var kvp := dict.list.Get(i);
      if kvp.value.Arr? {
        w := CloneArraySlot(i, kvp, kvp.value.a, t[i]);
      } else if kvp.value.Obj? {
        w := CloneObjectSlot(i, kvp, kvp.value.o, t[i]);
      } else {
        w := kvp.value;
      }
      add := Fp(w) + Fp(e0[i]);
      s1, e1, reg1 := s[i := s[i].(value := w)], e[i := w], reg[i := reg[i] + add];
      Advanced(Turn(e, e0, t, i, reg, others), w);
    }

    /** Slot `i` holds the array `a`: its value becomes `a.clone()`. */
    method CloneArraySlot(i: nat, kvp: Slot<Value>, a: JArray, ghost t: Json) returns (ghost w: Value)
      requires dict.list.Valid() && i < dict.list.count && dict.list.Contents()[i] == kvp && kvp.value == Arr(a)
      requires Good(Arr(a), t) && Fp(Arr(a)) !! Own()
      modifies a.Repr, dict.list.elements
      decreases a.Repr, 5
      ensures dict.list.Valid() && dict.list.Contents() == old(dict.list.Contents())[i := kvp.(value := w)]
      ensures Good(w, t) && Good(Arr(a), t)
      ensures w.Arr? && fresh(w.a)
      ensures Fp(w) !! Fp(Arr(a))
      ensures fresh(Fp(w) + Fp(Arr(a)) - old(Fp(Arr(a))))
    {
      var c := a.Clone();
      ArrayCloned(a, c, t);
      dict.list.Put(i, kvp.(value := Arr(c)));
      w := Arr(c);
    }

    /** Slot `i` holds the object `o`: its value becomes `o.clone()`. */
    method CloneObjectSlot(i: nat, kvp: Slot<Value>, o: JObject, ghost t: Json) returns (ghost w: Value)
      requires dict.list.Valid() && i < dict.list.count && dict.list.Contents()[i] == kvp && kvp.value == Obj(o)
      requires Good(Obj(o), t) && Fp(Obj(o)) !! Own()
      modifies o.Repr, dict.list.elements
      decreases o.Repr, 5
      ensures dict.list.Valid() && dict.list.Contents() == old(dict.list.Contents())[i := kvp.(value := w)]
      ensures Good(w, t) && Good(Obj(o), t)
      ensures w.Obj? && fresh(w.o)
      ensures Fp(w) !! Fp(Obj(o))
      ensures fresh(Fp(w) + Fp(Obj(o)) - old(Fp(Obj(o))))
    {
      var c := o.Clone();
      ObjectCloned(o, c, t);
      dict.list.Put(i, kvp.(value := Obj(c)));
      w := Obj(c);
    }

    /** The end of `clone`: the receiver and the copy each take the storage
        of their own slot values as their footprint, and both are valid
        trees again, apart from each other. Their storage was there before,
        in `bound`, or is new, in `born`. */
    ghost method Adopt(copy: JObject, s: seq<Slot<Value>>, s0: seq<Slot<Value>>, e: seq<Value>, e0: seq<Value>,
                       t: seq<Json>, reg: seq<set<object>>, reg0: seq<set<object>>, born: set<object>, bound: set<object>)
      requires dict.list.Valid() && dict.list.Contents() == s && KeysOrdered(s0) && dict.blank == Null
      requires copy.dict.Valid() && copy.dict.Slots() == s0 && copy.Slots == Slots && copy.dict.blank == Null
      requires |s| == |s0| == |e| == |e0| == |t| == |reg| == |reg0| == |Slots| && Own() !! copy.Own()
      requires SameShape(s, s0) && SameShape(s0, Slots) && t == SlotValues(Slots)
      requires forall k :: 0 <= k < |s| ==> s[k].value == e[k] && s0[k].value == e0[k]
      requires forall k :: 0 <= k < |e| ==> Twin(e, e0, t, reg, k) && Split(e, e0, k)
      requires forall k, j :: 0 <= k < j < |reg| ==> reg[k] !! reg[j]
      requires forall k :: 0 <= k < |reg| ==> reg[k] !! Own() + copy.Own() && reg[k] <= reg0[k] + born
      requires forall k :: 0 <= k < |reg0| ==> reg0[k] <= bound
      requires Own() <= bound
      modifies this, copy
      ensures Slots == old(Slots) && copy.Slots == old(copy.Slots)
      ensures dict.Slots() == s && copy.dict.Slots() == s0
      ensures Valid() && Tree() && copy.Valid() && copy.Tree()
      ensures Repr + copy.Repr - bound <= copy.Own() + born
      ensures Repr !! copy.Repr
    {
      var mine, theirs, fm, ft := Halves(e, e0, t, reg, reg0, born, bound, Own() + copy.Own());
      SameShapeKeepsOrder(s0, s);
      SameShapeChains(s, s0, Slots);
      Settle(s, e, t, fm, mine);
      label settled:
      AllKept(Stored(e0, t, theirs));
      copy.Settle(s0, e0, t, ft, theirs);
      Untouched@settled();
    }

    /** An object whose footprint nobody changed is still a valid tree. */
    twostate lemma Untouched()
      requires old(Valid() && Tree()) && unchanged(old(Repr))
      ensures Valid() && Tree() && Repr == old(Repr)
    {
    }

    /** The object takes `Own()` and the storage `parts` of its slot values
        as its footprint, and is a valid tree again. */
    ghost method Settle(s: seq<Slot<Value>>, e: seq<Value>, t: seq<Json>, f: seq<set<object>>, parts: set<object>)
      requires dict.Valid() && dict.blank == Null && dict.list.Contents() == s
      requires |s| == |e| == |t| == |f| == |Slots| && SameShape(s, Slots) && t == SlotValues(Slots)
      requires parts !! Own()
      requires forall k :: 0 <= k < |s| ==> s[k].value == e[k]
      requires forall k :: 0 <= k < |e| ==> Good(e[k], t[k]) && Fp(e[k]) == f[k] && f[k] <= parts
      requires forall k, j :: 0 <= k < j < |f| ==> f[k] !! f[j]
      modifies this
      ensures Repr == Own() + parts && Slots == old(Slots) && Valid() && Tree()
    {
      Repr := Own() + parts;
      AllKept(Stored(e, t, parts));
      Built(s, e, t, f, parts);
    }

    /** Slots `s` with values `e`, well formed, pairwise disjoint and shaped
        like `Slots`, with `Repr` the map's storage and theirs, make a valid
        object with no shared container. */
    lemma Built(s: seq<Slot<Value>>, e: seq<Value>, t: seq<Json>, f: seq<set<object>>, parts: set<object>)
      requires dict.Valid() && dict.blank == Null && dict.list.Contents() == s
      requires |s| == |e| == |t| == |f| == |Slots| && SameShape(s, Slots) && t == SlotValues(Slots)
      requires Repr == Own() + parts && parts !! Own()
      requires forall k :: 0 <= k < |s| ==> s[k].value == e[k]
      requires forall k :: 0 <= k < |e| ==> Good(e[k], t[k]) && Fp(e[k]) == f[k] && f[k] <= parts
      requires forall k, j :: 0 <= k < j < |f| ==> f[k] !! f[j]
      ensures Valid() && Tree()
    {
      assert forall k :: 0 <= k < |s| ==> dict.list.elements[k] == s[k];
    }
  }

  /** How `set` changes a slot sequence, on the value slots and on the tree
      slots at once: one slot `p` becomes the new live slot, the others stay. */
  lemma SetShapes(s: seq<Slot<Value>>, t: seq<Slot<Json>>, s2: seq<Slot<Value>>, t2: seq<Slot<Json>>,
                   key: Key, v: Value, tv: Json) returns (p: nat)
    requires SameShape(s, t)
    requires s2 == Assign(s, key, Null, v) && t2 == Assign(t, key, JNull, tv)
    ensures |s2| == |t2| && p < |s2|
    ensures |s2| == |s| || |s2| == |s| + 1 == p + 1
    ensures s2[p] == Slot(true, key, v) && t2[p] == Slot(true, key, tv)
    ensures forall j :: 0 <= j < |s| && j != p ==> s2[j] == s[j] && t2[j] == t[j]
  {
    ClaimFollowsShape(s, t, key, Null, JNull);
    AssignDisturbsNothing(s, key, Null, v);
    AssignDisturbsNothing(t, key, JNull, tv);
    ClaimDisturbsNothing(s, key, Null);
    p := Claim(s, key, Null).1;
  }

  /** A value none of whose storage changed still is well formed and still
      denotes the same tree. */
  twostate lemma ValueKept(w: Value)
    requires old(ValueValid(w))
    requires unchanged(old(Fp(w)))
    ensures Fp(w) == old(Fp(w))
    ensures ValueValid(w)
    ensures TreeOf(w) == old(TreeOf(w))
  {
  }

  /** Likewise for a value with no shared container. */
  twostate lemma TreeKept(w: Value)
    requires old(ValueValid(w)) && old(ValueTree(w))
    requires unchanged(old(Fp(w)))
    ensures Fp(w) == old(Fp(w))
    ensures Good(w, old(TreeOf(w)))
  {
  }

  /** Values `e` denoting trees `t`, with all their storage in `s`. */
  datatype Stored = Stored(e: seq<Value>, t: seq<Json>, s: set<object>)

  /** Values whose storage all lies in an unchanged set keep their
      footprints, their shape and their trees. */
  twostate lemma AllKept(p: Stored)
    requires |p.e| == |p.t| && unchanged(p.s)
    requires forall k :: 0 <= k < |p.e| ==> old(Good(p.e[k], p.t[k])) && old(Fp(p.e[k])) <= p.s
    ensures forall k :: 0 <= k < |p.e| ==> Good(p.e[k], p.t[k]) && Fp(p.e[k]) == old(Fp(p.e[k]))
  {
    forall k | 0 <= k < |p.e|
      ensures Good(p.e[k], p.t[k]) && Fp(p.e[k]) == old(Fp(p.e[k]))
    {
      TreeKept(p.e[k]);
    }
  }

  /** `others`, the union of all regions but region `i`, is apart from
      region `i` and from whatever every region is apart from. */
  lemma Apart(reg: seq<set<object>>, i: nat, avoid: set<object>) returns (others: set<object>)
    requires i < |reg|
    requires forall k, j :: 0 <= k < j < |reg| ==> reg[k] !! reg[j]
    requires forall k :: 0 <= k < |reg| ==> reg[k] !! avoid
    ensures others !! reg[i] && others !! avoid
    ensures forall k :: 0 <= k < |reg| && k != i ==> reg[k] <= others
  {
    others := set k, o | 0 <= k < |reg| && k != i && o in reg[k] :: o;
  }

  /** One turn of `clone`'s loop: the receiver's elements `e`, the copy's
      `e0`, the trees they denote, the regions of storage of each pair and
      the union of all regions but region `i`. */
  datatype Turn = Turn(e: seq<Value>, e0: seq<Value>, t: seq<Json>, i: nat, reg: seq<set<object>>,
                       others: set<object>)

  /** After element `i` was cloned into `w`, the loop's account of the
      storage holds again with `w` in place of element `i` and region `i`
      grown by the storage of the pair: every pair still denotes its tree
      and lies in its region, and the pairs done so far are apart. */
  twostate lemma Advanced(p: Turn, new w: Value)
    requires p.i < |p.e| == |p.e0| == |p.t| == |p.reg|
    requires p.e[p.i] == p.e0[p.i]
    requires forall k :: 0 <= k < |p.e| ==> old(Twin(p.e, p.e0, p.t, p.reg, k))
    requires forall k :: 0 <= k < p.i ==> old(Split(p.e, p.e0, k))
    requires forall k :: 0 <= k < |p.reg| && k != p.i ==> p.reg[k] <= p.others
    requires unchanged(p.others)
    requires Good(w, p.t[p.i]) && Good(p.e0[p.i], p.t[p.i]) && Fp(w) !! Fp(p.e0[p.i])
    ensures var e, r := p.e[p.i := w], p.reg[p.i := p.reg[p.i] + (Fp(w) + Fp(p.e0[p.i]))];
      && (forall k :: 0 <= k < |p.e0| ==> Twin(e, p.e0, p.t, r, k))
      && (forall k :: 0 <= k < p.i + 1 ==> Split(e, p.e0, k))
  {
    var e, r := p.e[p.i := w], p.reg[p.i := p.reg[p.i] + (Fp(w) + Fp(p.e0[p.i]))];
    forall k | 0 <= k < |p.e0|
      ensures Twin(e, p.e0, p.t, r, k)
      ensures k < p.i + 1 ==> Split(e, p.e0, k)
    {
      assert old(Twin(p.e, p.e0, p.t, p.reg, k));
      if k != p.i {
        TreeKept(p.e[k]);
        TreeKept(p.e0[k]);
        if k < p.i {
          assert old(Split(p.e, p.e0, k));
        }
      }
    }
  }

  /** The regions stay pairwise disjoint and apart from `keep` when region
      `i` grows by `add`, whose objects outside the region no other region
      has; every region stays within its first extent and the objects born
      so far. */
  lemma Grown(reg: seq<set<object>>, reg0: seq<set<object>>, born: set<object>, i: nat,
              add: set<object>, keep: set<object>, others: set<object>)
    requires i < |reg| == |reg0|
    requires forall k, j :: 0 <= k < j < |reg| ==> reg[k] !! reg[j]
    requires forall k :: 0 <= k < |reg| && k != i ==> reg[k] <= others
    requires add - reg[i] !! others && add - reg[i] !! keep
    requires forall k :: 0 <= k < |reg| ==> reg[k] !! keep && reg[k] <= reg0[k] + born
    ensures var r := reg[i := reg[i] + add];
      && (forall k, j :: 0 <= k < j < |r| ==> r[k] !! r[j])
      && (forall k :: 0 <= k < |r| ==> r[k] !! keep && r[k] <= reg0[k] + (born + (add - reg[i])))
  {
  }

  /** Where the objects of the two element sequences `clone` ends with lie:
      `mine` below the receiver's elements `e`, `theirs` below the copy's
      `e0`. Each pair of elements lies in its own region, so the two sides
      are apart, and every region lies in `bound` or among the new objects
      `born`. */
  lemma Parted(e: seq<Value>, e0: seq<Value>, t: seq<Json>, reg: seq<set<object>>, reg0: seq<set<object>>,
               born: set<object>, bound: set<object>, avoid: set<object>)
    returns (mine: set<object>, theirs: set<object>)
    requires |e| == |e0| == |t| == |reg| == |reg0|
    requires forall k :: 0 <= k < |e| ==> Twin(e, e0, t, reg, k) && Split(e, e0, k)
    requires forall k, j :: 0 <= k < j < |reg| ==> reg[k] !! reg[j]
    requires forall k :: 0 <= k < |reg| ==> reg[k] !! avoid && reg[k] <= reg0[k] + born && reg0[k] <= bound
    ensures mine !! theirs && mine + theirs <= bound + born && (mine + theirs) !! avoid
    ensures forall k :: 0 <= k < |e| ==>
      Good(e[k], t[k]) && Fp(e[k]) <= mine && Good(e0[k], t[k]) && Fp(e0[k]) <= theirs
    ensures forall k, j :: 0 <= k < j < |e| ==> Fp(e[k]) !! Fp(e[j]) && Fp(e0[k]) !! Fp(e0[j])
  {
    mine := set k, o | 0 <= k < |e| && o in Fp(e[k]) :: o;
    theirs := set k, o | 0 <= k < |e0| && o in Fp(e0[k]) :: o;
    forall k | 0 <= k < |e|
      ensures Good(e[k], t[k]) && Good(e0[k], t[k])
      ensures Fp(e[k]) + Fp(e0[k]) <= reg[k] && Fp(e[k]) !! Fp(e0[k])
    {
      assert Twin(e, e0, t, reg, k) && Split(e, e0, k);
    }
  }

  /** `Parted` with the footprints of the two sides also given as
      sequences, `fm` for `e` and `ft` for `e0`, pairwise apart. */
  lemma Halves(e: seq<Value>, e0: seq<Value>, t: seq<Json>, reg: seq<set<object>>, reg0: seq<set<object>>,
               born: set<object>, bound: set<object>, avoid: set<object>)
    returns (mine: set<object>, theirs: set<object>, fm: seq<set<object>>, ft: seq<set<object>>)
    requires |e| == |e0| == |t| == |reg| == |reg0|
    requires forall k :: 0 <= k < |e| ==> Twin(e, e0, t, reg, k) && Split(e, e0, k)
    requires forall k, j :: 0 <= k < j < |reg| ==> reg[k] !! reg[j]
    requires forall k :: 0 <= k < |reg| ==> reg[k] !! avoid && reg[k] <= reg0[k] + born && reg0[k] <= bound
    ensures mine !! theirs && mine + theirs <= bound + born && (mine + theirs) !! avoid
    ensures |fm| == |ft| == |e|
    ensures forall k :: 0 <= k < |e| ==>
      Good(e[k], t[k]) && Fp(e[k]) == fm[k] && fm[k] <= mine && Good(e0[k], t[k]) && Fp(e0[k]) == ft[k] && ft[k] <= theirs
    ensures forall k, j :: 0 <= k < j < |e| ==> fm[k] !! fm[j] && ft[k] !! ft[j]
  {
    mine, theirs := Parted(e, e0, t, reg, reg0, born, bound, avoid);
    fm, ft := Footprints(e), Footprints(e0);
  }

  /** After `a.clone()` returned `c`, both denote what `a` denoted. */
  lemma ArrayCloned(a: JArray, c: JArray, t: Json)
    requires a.Valid() && a.Tree() && c.Valid() && c.Tree() && JArr(a.Items) == t && c.Items == a.Items
    ensures Good(Arr(a), t) && Good(Arr(c), t)
  {
  }

  /** After `o.clone()` returned `c`, both denote what `o` denoted. */
  lemma ObjectCloned(o: JObject, c: JObject, t: Json)
    requires o.Valid() && o.Tree() && c.Valid() && c.Tree() && JObj(o.Slots) == t && c.Slots == o.Slots
    ensures Good(Obj(o), t) && Good(Obj(c), t)
  {
  }

  /** Two slot sequences with the same valid flags and keys in the same
      order. */
  ghost predicate SameShape<A, B>(s: seq<Slot<A>>, t: seq<Slot<B>>)
  {
    |s| == |t| && forall i :: 0 <= i < |s| ==> s[i].valid == t[i].valid && s[i].key == t[i].key
  }

  /** Claiming a key depends only on the valid flags and keys of the slots. */
  lemma ClaimFollowsShape<A, B>(s: seq<Slot<A>>, t: seq<Slot<B>>, key: Key, a: A, b: B)
    requires SameShape(s, t)
    ensures Claim(s, key, a).1 == Claim(t, key, b).1
    ensures SameShape(Claim(s, key, a).0, Claim(t, key, b).0)
  {
    var fs, ft := Find(s, key), Find(t, key);
    if fs.Some? {
      assert ft.Some? && ft.value == fs.value;
    } else {
      assert ft.None?;
      var gs, gt := FirstTombstone(s), FirstTombstone(t);
      if gs.Some? {
        assert gt.Some? && gt.value == gs.value;
      } else {
        assert gt.None?;
      }
    }
  }

  /** Slots shaped like slots shaped like `u` are shaped like `u`. */
  lemma SameShapeChains<A, B, C>(s: seq<Slot<A>>, t: seq<Slot<B>>, u: seq<Slot<C>>)
    requires SameShape(s, t) && SameShape(t, u)
    ensures SameShape(s, u)
  {
  }

  /** The key order of a map depends only on the valid flags and keys. */
  lemma SameShapeKeepsOrder<A, B>(s: seq<Slot<A>>, t: seq<Slot<B>>)
    requires SameShape(s, t) && KeysOrdered(s)
    ensures KeysOrdered(t)
  {
    forall i, j | 0 <= i < j < |t| && t[j].valid
      ensures t[i].key != t[j].key
    {
      assert s[j].valid;
    }
  }
}
