/** The printer of encode.cpp. What `Json::print` sends to a `Print` sink
    and the count it returns are first defined as functions of the tree a
    value denotes (`Render`, `Count`); the routines themselves are methods
    that walk the heap values and are proved to produce exactly that text
    and that count. `JsonDumper` is the sink `Json::dump` prints into. */
module Encode {
  import opened Base
  import opened Containers
  import opened JsonTypes

  /** `(size_t)-1` on a 32-bit target: what `JsonDumper::write` answers when
      its buffer is full. */
  const SIZE_MAX: nat := 0xFFFF_FFFF

  const NULL_WORD: seq<Byte> := ['n' as int, 'u' as int, 'l' as int, 'l' as int]
  const TRUE_WORD: seq<Byte> := ['t' as int, 'r' as int, 'u' as int, 'e' as int]
  const FALSE_WORD: seq<Byte> := ['f' as int, 'a' as int, 'l' as int, 's' as int, 'e' as int]

  /** The text `printFloat` prints for a float and the count it returns.
      The float printer is not part of this model; it is a parameter. */
  datatype FloatOut = FloatOut(text: seq<Byte>, count: int)

  type FloatPrinter = Decimal -> FloatOut

  /** A byte `printStringPtr` copies as it is: above 31, and neither `"`
      nor a backslash. */
  predicate PrintedAsIs(b: Byte)
  {
    b > 31 && b != '"' as int && b != '\\' as int
  }

  /** The letter the `switch` of `printStringPtr` prints after the
      backslash; nothing for a byte it has no case for. The `/` case cannot
      be reached, since `/` is printed as it is. */
  function EscapeLetter(b: Byte): (r: seq<Byte>)
    ensures |r| <= 1
  {
    if b == '\\' as int then ['\\' as int]
    else if b == '"' as int then ['"' as int]
    else if b == '/' as int then ['/' as int]
    else if b == 8 then ['b' as int]
    else if b == 12 then ['f' as int]
    else if b == 10 then ['n' as int]
    else if b == 13 then ['r' as int]
    else if b == 9 then ['t' as int]
    else []
  }

  /** The bytes printed for one byte of a string. */
  function EscapeChar(b: Byte): seq<Byte>
  {
    if PrintedAsIs(b) then [b] else ['\\' as int] + EscapeLetter(b)
  }

  /** What the running count grows by for one byte: 1, or 2 for any byte
      that takes the escape branch, whether or not a letter follows. */
  function CharCount(b: Byte): int
  {
    if PrintedAsIs(b) then 1 else 2
  }

  /** The escaped body of a string. */
  function Escaped(s: seq<Byte>): seq<Byte>
  {
    if s == [] then [] else EscapeChar(s[0]) + Escaped(s[1..])
  }

  function EscapedCount(s: seq<Byte>): int
  {
    if s == [] then 0 else CharCount(s[0]) + EscapedCount(s[1..])
  }

  /** What `printStringPtr` prints: the escaped string between quotes. */
  function Quoted(s: seq<Byte>): seq<Byte>
  {
    ['"' as int] + Escaped(s) + ['"' as int]
  }

  function QuotedCount(s: seq<Byte>): int
  {
    2 + EscapedCount(s)
  }

  /** A byte that `printStringPtr` escapes but cannot name: only the
      backslash is printed for it. */
  predicate Unnamed(b: Byte)
  {
    !PrintedAsIs(b) && EscapeLetter(b) == []
  }

  /** How many bytes of `s` are escaped without a letter. */
  function UnnamedCount(s: seq<Byte>): nat
  {
    if s == [] then 0 else (if Unnamed(s[0]) then 1 else 0) + UnnamedCount(s[1..])
  }

  /** The text `Json::print` sends for a value denoting `t`. */
  function Render(t: Json, pf: FloatPrinter): seq<Byte>
  {
    match t
    case JNull => NULL_WORD
    case JBool(b) => if b then TRUE_WORD else FALSE_WORD
    case JInt(i) => Itoa(i)
    case JFloat(f) => pf(f).text
    case JStr(s) => Quoted(s)
    case JArr(items) => ['[' as int] + RenderItems(items, |items|, pf) + [']' as int]
    case JObj(slots) => ['{' as int] + RenderSlots(t, |slots|, pf) + ['}' as int]
    case JInvalid => []
  }

  /** Element `i` of an array and the comma `printArray` prints after every
      element but the last. */
  function ItemText(items: seq<Json>, i: nat, pf: FloatPrinter): seq<Byte>
    requires i < |items|
    decreases items, 0
  {
    Render(items[i], pf) + (if i < |items| - 1 then [',' as int] else [])
  }

  /** The first `n` rounds of the loop of `printArray`. */
  function RenderItems(items: seq<Json>, n: nat, pf: FloatPrinter): seq<Byte>
    requires n <= |items|
    decreases items, n + 1
  {
    if n == 0 then [] else RenderItems(items, n - 1, pf) + ItemText(items, n - 1, pf)
  }

  /** Slot `i` of object `t`: nothing for an invalid value, otherwise a
      comma unless it is slot 0 (even when every slot before it was
      skipped), the quoted key, `:` and the value. Tombstones are printed
      like live slots. */
  function SlotText(t: Json, i: nat, pf: FloatPrinter): seq<Byte>
    requires t.JObj? && i < |t.slots|
    decreases t, 0
  {
    var kv := t.slots[i];
    if kv.value.JInvalid? then []
    else (if i > 0 then [',' as int] else []) + Quoted(kv.key) + [':' as int] + Render(kv.value, pf)
  }

  /** The first `n` rounds of the loop of `printObject`. */
  function RenderSlots(t: Json, n: nat, pf: FloatPrinter): seq<Byte>
    requires t.JObj? && n <= |t.slots|
    decreases t, n + 1
  {
    if n == 0 then [] else RenderSlots(t, n - 1, pf) + SlotText(t, n - 1, pf)
  }

  /** The count `Json::print` returns for a value denoting `t`, every write
      being accepted. */
  function Count(t: Json, pf: FloatPrinter): int
  {
    match t
    case JNull => 4
    case JBool(b) => if b then 4 else 5
    case JInt(i) => |Itoa(i)|
    case JFloat(f) => pf(f).count
    case JStr(s) => QuotedCount(s)
    case JArr(items) => 2 + CountItems(items, |items|, pf)
    case JObj(slots) => 2 + CountSlots(t, |slots|, pf)
    case JInvalid => 0
  }

  function ItemCount(items: seq<Json>, i: nat, pf: FloatPrinter): int
    requires i < |items|
    decreases items, 0
  {
    Count(items[i], pf) + (if i < |items| - 1 then 1 else 0)
  }

  function CountItems(items: seq<Json>, n: nat, pf: FloatPrinter): int
    requires n <= |items|
    decreases items, n + 1
  {
    if n == 0 then 0 else CountItems(items, n - 1, pf) + ItemCount(items, n - 1, pf)
  }

  function SlotCount(t: Json, i: nat, pf: FloatPrinter): int
    requires t.JObj? && i < |t.slots|
    decreases t, 0
  {
    var kv := t.slots[i];
    if kv.value.JInvalid? then 0
    else (if i > 0 then 1 else 0) + QuotedCount(kv.key) + 1 + Count(kv.value, pf)
  }

  function CountSlots(t: Json, n: nat, pf: FloatPrinter): int
    requires t.JObj? && n <= |t.slots|
    decreases t, n + 1
  {
    if n == 0 then 0 else CountSlots(t, n - 1, pf) + SlotCount(t, n - 1, pf)
  }

  /** Printing a string byte by byte: the text and count of `s + [b]` are
      those of `s` followed by those of `b`. */
  lemma {:induction false} EscapedSnoc(s: seq<Byte>, b: Byte)
    ensures Escaped(s + [b]) == Escaped(s) + EscapeChar(b)
    ensures EscapedCount(s + [b]) == EscapedCount(s) + CharCount(b)
  {
    if s != [] {
      assert (s + [b])[1..] == s[1..] + [b];
      EscapedSnoc(s[1..], b);
    }
  }

  /** The count `printStringPtr` returns is the length of what it printed,
      plus one for every byte escaped without a letter: the `result += 2`
      comes before the `switch` that may print only the backslash. */
  lemma {:induction false} EscapedCountOvercounts(s: seq<Byte>)
    ensures EscapedCount(s) == |Escaped(s)| + UnnamedCount(s)
  {
    if s != [] {
      EscapedCountOvercounts(s[1..]);
    }
  }

  /** A tree on which every count the printer returns is the number of
      bytes it printed: no string or key with a byte escaped without a
      letter, and every float printed with an exact count. */
  predicate Exact(t: Json, pf: FloatPrinter)
  {
    match t
    case JFloat(f) => pf(f).count == |pf(f).text|
    case JStr(s) => UnnamedCount(s) == 0
    case JArr(items) => forall i :: 0 <= i < |items| ==> Exact(items[i], pf)
    case JObj(slots) =>
      forall i :: 0 <= i < |slots| ==>
        slots[i].value.JInvalid? || (UnnamedCount(slots[i].key) == 0 && Exact(slots[i].value, pf))
    case _ => true
  }

  /** On such a tree the count `Json::print` returns is the length of the
      text it printed. */
  lemma {:induction false} CountIsLength(t: Json, pf: FloatPrinter)
    requires Exact(t, pf)
    ensures Count(t, pf) == |Render(t, pf)|
    decreases t
  {
    match t
    case JStr(s) => EscapedCountOvercounts(s);
    case JArr(items) => ItemsCountIsLength(items, |items|, pf);
    case JObj(slots) => SlotsCountIsLength(t, |slots|, pf);
    case _ =>
  }

  lemma {:induction false} ItemsCountIsLength(items: seq<Json>, n: nat, pf: FloatPrinter)
    requires n <= |items|
    requires forall i :: 0 <= i < |items| ==> Exact(items[i], pf)
    ensures CountItems(items, n, pf) == |RenderItems(items, n, pf)|
    decreases items, n
  {
    if n > 0 {
      ItemsCountIsLength(items, n - 1, pf);
      CountIsLength(items[n - 1], pf);
    }
  }

  lemma {:induction false} SlotsCountIsLength(t: Json, n: nat, pf: FloatPrinter)
    requires t.JObj? && n <= |t.slots| && Exact(t, pf)
    ensures CountSlots(t, n, pf) == |RenderSlots(t, n, pf)|
    decreases t, n
  {
    if n > 0 {
      SlotsCountIsLength(t, n - 1, pf);
      var kv := t.slots[n - 1];
      if !kv.value.JInvalid? {
        EscapedCountOvercounts(kv.key);
        CountIsLength(kv.value, pf);
      }
    }
  }

  /** `/` is printed as it is: the `'/'` case of the escape `switch` is
      never reached. */
  lemma SlashIsNotEscaped()
    ensures EscapeChar('/' as int) == ['/' as int]
  {
  }

  /** `printObject` tests only `isInvalid()`, not the slot's `valid` flag:
      a removed member is printed like a live one. */
  lemma TombstoneIsPrinted(key: Key, v: Json, pf: FloatPrinter)
    requires !v.JInvalid?
    ensures Render(JObj([Slot(false, key, v)]), pf)
         == ['{' as int] + Quoted(key) + [':' as int] + Render(v, pf) + ['}' as int]
  {
    var t := JObj([Slot(false, key, v)]);
    var q, d := Quoted(key), Render(v, pf);
    OneSlotText(t, pf);
    assert SlotText(t, 0, pf) == q + [':' as int] + d;
    Enclose(['{' as int], q, [':' as int], d, ['}' as int]);
  }

  /** An object of one slot prints as that slot's text in braces. */
  lemma OneSlotText(t: Json, pf: FloatPrinter)
    requires t.JObj? && |t.slots| == 1
    ensures Render(t, pf) == ['{' as int] + SlotText(t, 0, pf) + ['}' as int]
  {
    assert RenderSlots(t, 1, pf) == RenderSlots(t, 0, pf) + SlotText(t, 0, pf);
  }

  /** The comma goes before every slot but slot 0, so when slot 0 holds an
      invalid value and is skipped, the object text starts with `{,`. */
  lemma LeadingComma(a: Slot<Json>, b: Slot<Json>, pf: FloatPrinter)
    requires a.value.JInvalid? && !b.value.JInvalid?
    ensures Render(JObj([a, b]), pf)[..2] == ['{' as int, ',' as int]
  {
    var t := JObj([a, b]);
    assert RenderSlots(t, 1, pf) == [];
    assert RenderSlots(t, 2, pf) == SlotText(t, 1, pf);
    assert SlotText(t, 1, pf)[0] == ',' as int;
  }

  /** `JsonDumper`: a `Print` sink writing into a caller's buffer, which
      promises room for `size` bytes from `buffer` on. The field `buffer`
      is `out` offset by `pos`. */
  class JsonDumper {
    const out: array<Byte>
    var pos: nat
    var size: nat

    ghost predicate Valid()
      reads this
    {
      pos + size <= out.Length
    }

    constructor (buffer: array<Byte>, size: nat)
      requires size <= buffer.Length
      ensures Valid() && out == buffer && pos == 0 && this.size == size
    {
      out := buffer;
      pos := 0;
      this.size := size;
    }

    /** `write(ch)`: store `ch` and advance while room is left, answering 1;
        once full, store nothing and answer `(size_t)-1`. */
    method Write(ch: Byte) returns (ret: nat)
      requires Valid()
      modifies this, out
      ensures Valid()
      ensures old(size) > 0 ==>
        ret == 1 && pos == old(pos) + 1 && size == old(size) - 1 && out[..] == old(out[..])[old(pos) := ch]
      ensures old(size) == 0 ==>
        ret == SIZE_MAX && pos == old(pos) && size == 0 && out[..] == old(out[..])
    {
      ret := SIZE_MAX;
      if size > 0 {
        ret := 1;
        out[pos] := ch;
        size := size - 1;
        pos := pos + 1;
      }
    }
  }

  /** `printStringPtr(str, print)`: a quote, each byte as it is or escaped,
      a quote; NULL prints as an empty string. Answers the text sent to the
      sink and the running count. */
  method PrintStringPtr(str: Option<CStr>) returns (text: seq<Byte>, result: int)
    ensures str.None? ==> text == Quoted([]) && result == QuotedCount([])
    ensures str.Some? ==> text == Quoted(str.value) && result == QuotedCount(str.value)
  {
    result := 1;
    var body: seq<Byte> := [];
    if str.Some? {
      var s := str.value;
      var ptr := 0;
      while ptr < |s|
        invariant ptr <= |s|
        invariant body == Escaped(s[..ptr])
        invariant result == 1 + EscapedCount(s[..ptr])
      {
        var b := s[ptr];
        EscapedSnoc(s[..ptr], b);
        assert s[..ptr + 1] == s[..ptr] + [b];
        if b > 31 && b != '"' as int && b != '\\' as int {
          result := result + 1;
          body := body + [b];
        } else {
          result := result + 2;
          body := body + (['\\' as int] + EscapeLetter(b));
        }
        ptr := ptr + 1;
      }
      assert s[..ptr] == s;
    }
    result := result + 1;
    text := ['"' as int] + body + ['"' as int];
  }

  /** `Json::print(item, print)`: the text for the value's tag, and the
      count the routine it dispatches to returns; nothing and 0 for an
      invalid value. */
  method PrintValue(v: Value, pf: FloatPrinter) returns (text: seq<Byte>, result: int)
    requires ValueValid(v)
    ensures text == Render(TreeOf(v), pf) && result == Count(TreeOf(v), pf)
    decreases Fp(v), 2
  {
    match v
    case Null =>
      text, result := NULL_WORD, 4;
    case Bool(_) =>
      if AsBool(v) != 0 {
        text, result := TRUE_WORD, 4;
      } else {
        text, result := FALSE_WORD, 5;
      }
    case Int(_) =>
      text := Itoa(AsInt(v));
      result := |text|;
    case Float(_) =>
      var printed := pf(AsFloat(v));
      text, result := printed.text, printed.count;
    case Str(_) =>
      text, result := PrintStringPtr(AsString(v));
    case Arr(a) =>
      assert Fp(v) == a.Repr;
      text, result := PrintArray(a, pf);
    case Obj(o) =>
      assert Fp(v) == o.Repr;
      text, result := PrintObject(o, pf);
    case Invalid =>
      text, result := [], 0;
  }

  /** `printArray(value, print)`: `[`, each element followed by a comma
      unless it is the last, `]`. */
  method PrintArray(a: JArray, pf: FloatPrinter) returns (text: seq<Byte>, result: int)
    requires a.Valid()
    ensures text == Render(JArr(a.Items), pf) && result == Count(JArr(a.Items), pf)
    decreases a.Repr, 1
  {
    ghost var items := a.Items;
    result := 1;
    text := ['[' as int];
    for i := 0 to a.list.Size()
      invariant text == ['[' as int] + RenderItems(items, i, pf)
      invariant result == 1 + CountItems(items, i, pf)
    {
      var et, ec := PrintElement(a, i, pf);
      text, result := text + et, result + ec;
    }
    text, result := text + [']' as int], result + 1;
  }

  /** Round `i` of the loop of `printArray`. */
  method PrintElement(a: JArray, i: nat, pf: FloatPrinter) returns (text: seq<Byte>, result: int)
    requires a.Valid() && i < |a.Items|
    ensures text == ItemText(a.Items, i, pf) && result == ItemCount(a.Items, i, pf)
    decreases a.Repr, 0
  {
    var item := a.list.Get(i);
    assert a.Holds(item, a.Items[i]);
    text, result := PrintValue(item, pf);
    if i < a.list.Size() - 1 {
      text, result := text + [',' as int], result + 1;
    }
  }

  /** `printObject(value, print)`: `{`, then for every slot whose value is
      not invalid a comma unless it is slot 0, the key, `:` and the value,
      then `}`. */
  method PrintObject(o: JObject, pf: FloatPrinter) returns (text: seq<Byte>, result: int)
    requires o.Readable()
    ensures text == Render(JObj(o.Slots), pf) && result == Count(JObj(o.Slots), pf)
    decreases o.Repr, 1
  {
    ghost var t := JObj(o.Slots);
    var n := o.dict.list.Size();
    assert n == |t.slots|;
    var members: seq<Byte> := [];
    result := 1;
    for i := 0 to n
      invariant members == RenderSlots(t, i, pf)
      invariant result == 1 + CountSlots(t, i, pf)
    {
      var st, sc := PrintSlot(o, i, pf);
      members, result := members + st, result + sc;
    }
    text, result := ['{' as int] + members + ['}' as int], result + 1;
  }

  /** Slot `i` of object `t` as `printObject` is written, where `char` is
      signed: the skip test compares the signed `type` byte with 255, as
      `IsInvalidAsWritten` does. */
  function SlotTextAsWritten(t: Json, i: nat, pf: FloatPrinter): seq<Byte>
    requires t.JObj? && i < |t.slots|
  {
    var kv := t.slots[i];
    var skipped: seq<Byte> := [];
    var printed := (if i > 0 then [',' as int] else []) + Quoted(kv.key) + [':' as int] + Render(kv.value, pf);
    if Signed(JsonTag(kv.value)) == JSON_INVALID then skipped else printed
  }

  /** The first `n` rounds of the loop of `printObject` as written. */
  function SlotsAsWritten(t: Json, n: nat, pf: FloatPrinter): seq<Byte>
    requires t.JObj? && n <= |t.slots|
  {
    if n == 0 then [] else SlotsAsWritten(t, n - 1, pf) + SlotTextAsWritten(t, n - 1, pf)
  }

  /** `printObject` as written, where `char` is signed. */
  function ObjectAsWritten(t: Json, pf: FloatPrinter): seq<Byte>
    requires t.JObj?
  {
    ['{' as int] + SlotsAsWritten(t, |t.slots|, pf) + ['}' as int]
  }

  /** As written, no slot is skipped: an invalid value, which prints as
      nothing, still gets its key and `:`. */
  lemma SlotAsWrittenNeverSkips(t: Json, i: nat, pf: FloatPrinter)
    requires t.JObj? && i < |t.slots|
    ensures SlotTextAsWritten(t, i, pf)
         == (if i > 0 then [',' as int] else []) + Quoted(t.slots[i].key) + [':' as int] + Render(t.slots[i].value, pf)
    ensures t.slots[i].value.JInvalid? ==> SlotText(t, i, pf) == []
  {
    assert Signed(JsonTag(t.slots[i].value)) != JSON_INVALID;
  }

  /** An invalid value in slot 0 followed by a printable one: as written the
      text is `{"a":,"b":...}`, a key with no value; with the test as meant
      the invalid slot is skipped and the text is `{,"b":...}`. */
  lemma InvalidSlotAsWritten(a: Slot<Json>, b: Slot<Json>, pf: FloatPrinter)
    requires a.value.JInvalid? && !b.value.JInvalid?
    ensures ObjectAsWritten(JObj([a, b]), pf)
         == ['{' as int] + (Quoted(a.key) + [':' as int])
          + ([',' as int] + Quoted(b.key) + [':' as int] + Render(b.value, pf)) + ['}' as int]
  {
    var t := JObj([a, b]);
    var qa := Quoted(a.key);
    var tb := [',' as int] + Quoted(b.key) + [':' as int] + Render(b.value, pf);
    SlotAsWrittenNeverSkips(t, 0, pf);
    assert Render(a.value, pf) == [];
    assert SlotTextAsWritten(t, 0, pf) == [] + qa + [':' as int] + [] == qa + [':' as int];
    assert SlotsAsWritten(t, 1, pf) == [] + (qa + [':' as int]) == qa + [':' as int];
    SlotAsWrittenNeverSkips(t, 1, pf);
    assert SlotTextAsWritten(t, 1, pf) == tb;
    assert SlotsAsWritten(t, 2, pf) == (qa + [':' as int]) + tb;
  }

  /** The same object with the test as meant: the invalid slot is skipped
      and the text starts `{,`. */
  lemma InvalidSlotSkipped(a: Slot<Json>, b: Slot<Json>, pf: FloatPrinter)
    requires a.value.JInvalid? && !b.value.JInvalid?
    ensures Render(JObj([a, b]), pf)
         == ['{' as int] + ([',' as int] + Quoted(b.key) + [':' as int] + Render(b.value, pf)) + ['}' as int]
  {
    var t := JObj([a, b]);
    assert RenderSlots(t, 1, pf) == [];
    assert RenderSlots(t, 2, pf) == [] + SlotText(t, 1, pf) == SlotText(t, 1, pf);
  }

  /** Round `i` of the loop of `printObject`. */
  method PrintSlot(o: JObject, i: nat, pf: FloatPrinter) returns (text: seq<Byte>, result: int)
    requires o.Readable() && i < |o.Slots|
    ensures text == SlotText(JObj(o.Slots), i, pf) && result == SlotCount(JObj(o.Slots), i, pf)
    decreases o.Repr, 0
  {
    var kvp := o.dict.list.Get(i);
    assert o.Holds(kvp, o.Slots[i]);
    text, result := [], 0;
    if !IsInvalid(kvp.value) {
      if i > 0 {
        text, result := [',' as int], 1;
      }
      var kt, kc := PrintStringPtr(Some(kvp.key));
      text, result := text + kt + [':' as int], result + kc + 1;
      var vt, vc := PrintValue(kvp.value, pf);
      text, result := text + vt, result + vc;
    }
  }

  function Min(a: nat, b: nat): nat
  {
    if a < b then a else b
  }

  /** Where `dump` as written stores its terminator: `out[length] = 0`
      whenever the count is positive, with no check against `size`. */
  function TerminatorAsWritten(length: int): (r: Option<nat>)
    ensures r.Some? <==> length > 0
    ensures r.Some? ==> r.value == length
  {
    if length > 0 then Some(length) else None
  }

  /** Dumping the string `ab` into a 4-byte buffer: the text `"ab"` fills
      the buffer exactly, every write is accepted, and `dump` as written
      then stores the terminator at index 4, one past the end. */
  lemma DumpOverrunsBuffer(pf: FloatPrinter)
    ensures var t := JStr(['a' as int, 'b' as int]);
      && |Render(t, pf)| == 4 && Count(t, pf) == 4
      && TerminatorAsWritten(Count(t, pf)) == Some(4)
  {
    var ab: seq<Byte> := ['a' as int, 'b' as int];
    assert ab[1..] == ['b' as int] && ab[1..][1..] == [];
    assert Escaped(ab[1..]) == ['b' as int] + Escaped([]);
    assert Escaped(ab) == ['a' as int] + Escaped(ab[1..]);
    assert EscapedCount(ab) == 1 + EscapedCount(ab[1..]) == 2;
  }

  /** Whenever the text of a value fills the buffer exactly, `dump` as
      written stores its terminator at index `size`, one past the end. */
  lemma DumpOverrunsFullBuffer(t: Json, pf: FloatPrinter, size: nat)
    requires Exact(t, pf) && |Render(t, pf)| == size && size > 0
    ensures TerminatorAsWritten(Count(t, pf)) == Some(size)
  {
    CountIsLength(t, pf);
  }

  /** `Json::dump(value, out, size)` with the terminator stored only inside
      the buffer: the value is printed through a `JsonDumper` over the first
      `size` bytes of `out`, which takes as much of the text as fits, and
      the count is returned. Nothing at or past `size` is written. */
  method Dump(value: Value, out: array<Byte>, size: nat, pf: FloatPrinter) returns (length: int)
    requires ValueValid(value) && size <= out.Length
    modifies out
    ensures length == Count(TreeOf(value), pf)
    ensures forall k :: size <= k < out.Length ==> out[k] == old(out[k])
    ensures forall k :: 0 <= k < size && k < |Render(TreeOf(value), pf)| && k != length ==>
      out[k] == Render(TreeOf(value), pf)[k]
    ensures 0 < length < size ==> out[length] == 0
    ensures forall k :: |Render(TreeOf(value), pf)| <= k < size && k != length ==> out[k] == old(out[k])
  {
    var dumper := new JsonDumper(out, size);
    var text;
    text, length := PrintValue(value, pf);
    var i := 0;
    while i < |text|
      invariant i <= |text|
      invariant dumper.out == out && dumper.Valid()
      invariant dumper.pos == Min(i, size) && dumper.size == size - Min(i, size)
      invariant forall k :: 0 <= k < dumper.pos ==> out[k] == text[k]
      invariant forall k :: dumper.pos <= k < out.Length ==> out[k] == old(out[k])
      modifies dumper, out
    {
      var accepted := dumper.Write(text[i]);
      i := i + 1;
    }
    if 0 < length < size {
      out[length] := 0;
    }
  }
}
