/** The parser of parse.cpp and json.cpp, as functions of the characters
    the stream still has to deliver. A stream is seen as the sequence of
    `char` values its `getch()` calls will return: the pushed-back character
    (the "bucket"), if any, followed by the unread input. A byte 0xFF reads
    as -1, which is `EOF`, exactly as through a signed `char`. */
module ParseSpec {
  import opened Base
  import opened Containers
  import opened JsonTypes

  /** What the stream will deliver, in order. */
  type Input = seq<SChar>

  const QUOTE: SChar := '"' as int
  const BACKSLASH: SChar := '\\' as int
  const MINUS: SChar := '-' as int
  const PLUS: SChar := '+' as int
  const DOT: SChar := '.' as int
  const COMMA: SChar := ',' as int
  const COLON: SChar := ':' as int
  const LBRACKET: SChar := '[' as int
  const RBRACKET: SChar := ']' as int
  const LBRACE: SChar := '{' as int
  const RBRACE: SChar := '}' as int

  const NULL_TEXT: seq<Byte> := ['n' as int, 'u' as int, 'l' as int, 'l' as int]
  const FALSE_TEXT: seq<Byte> := ['f' as int, 'a' as int, 'l' as int, 's' as int, 'e' as int]
  const TRUE_TEXT: seq<Byte> := ['t' as int, 'r' as int, 'u' as int, 'e' as int]

  /** The 256-byte string buffer of `parseString`, cleared to zeros. */
  function Cleared(): (buf: seq<Byte>)
    ensures |buf| == 256 && forall i :: 0 <= i < 256 ==> buf[i] == 0
  {
    seq(256, _ => 0)
  }

  /** `getch()`: the next character, or `EOF` once the input is exhausted. */
  function Getch(cs: Input): (r: (SChar, Input))
    ensures cs == [] ==> r == (EOF, [])
    ensures cs != [] ==> [r.0] + r.1 == cs
  {
    if cs == [] then (EOF, []) else (cs[0], cs[1..])
  }

  /** `ungetch(c)`: `c` goes back in front; pushing back `EOF` leaves the
      bucket empty, so nothing comes back. */
  function Ungetch(cs: Input, c: SChar): Input
  {
    if c == EOF then cs else [c] + cs
  }

  /** Pushing back the character just read restores the stream, unless that
      character was a 0xFF byte, which is indistinguishable from `EOF`. */
  lemma UngetchUndoesGetch(cs: Input)
    ensures Ungetch(Getch(cs).1, Getch(cs).0) == cs <==> cs == [] || cs[0] != EOF
  {
  }

  /** A character `skip()` passes over: anything from 1 to 32, and the
      negative `char` values of bytes 0x80 to 0xFE. */
  predicate IsBlank(c: SChar)
  {
    c != EOF && c <= 32
  }

  /** A result code and what is left of the stream. */
  datatype Step = Step(code: int, rest: Input)

  /** `skip()`: pass over blanks; if a character follows, push it back and
      answer 0, otherwise answer `EOF` (having consumed a 0xFF byte, if that
      is what stopped it). */
  function Skip(cs: Input): (r: Step)
    ensures r.code == 0 || r.code == EOF
    ensures |r.rest| <= |cs|
    ensures r.code == 0 ==> r.rest != [] && !IsBlank(r.rest[0]) && r.rest[0] != EOF
  {
    if cs == [] then Step(EOF, [])
    else if cs[0] == EOF then Step(EOF, cs[1..])
    else if IsBlank(cs[0]) then Skip(cs[1..])
    else Step(0, cs)
  }

  /** What `skip()` passes over: blanks only, up to the character it pushes
      back, or up to and including the `EOF` that stopped it. */
  lemma {:induction false} SkipPassesBlanks(cs: Input)
    ensures var r := Skip(cs);
      && r.rest == cs[|cs| - |r.rest|..]
      && (r.code == 0 ==> forall k :: 0 <= k < |cs| - |r.rest| ==> IsBlank(cs[k]))
      && (r.code == EOF ==> forall k :: 0 <= k < |cs| - |r.rest| - 1 ==> IsBlank(cs[k]))
      && (r.code == EOF && r.rest != [] ==> |r.rest| < |cs| && cs[|cs| - |r.rest| - 1] == EOF)
      && (r.code == EOF && r.rest == [] && cs != [] ==> IsBlank(cs[|cs| - 1]) || cs[|cs| - 1] == EOF)
  {
    if cs != [] && cs[0] != EOF && IsBlank(cs[0]) {
      SkipPassesBlanks(cs[1..]);
    }
  }

  /** `flush()`: read until `getch()` answers `EOF`. */
  function Flush(cs: Input): (r: Step)
    ensures r.code == EOF
    ensures |r.rest| <= |cs| && r.rest == cs[|cs| - |r.rest|..]
    ensures forall k :: 0 <= k < |cs| - |r.rest| - 1 ==> cs[k] != EOF
    ensures r.rest != [] ==> |r.rest| < |cs| && cs[|cs| - |r.rest| - 1] == EOF
  {
    if cs == [] then Step(EOF, [])
    else if cs[0] == EOF then Step(EOF, cs[1..])
    else Flush(cs[1..])
  }

  /** `readBytes(buffer, n)`: up to `n` characters, stopping early (and
      consuming it) at `EOF`. The count read is the length of the bytes. */
  function ReadBytes(cs: Input, n: nat): (r: (seq<Byte>, Input))
    ensures |r.0| <= n && |r.0| <= |cs| && |r.1| <= |cs|
    decreases n
  {
    if n == 0 then ([], cs)
    else if cs == [] then ([], [])
    else if cs[0] == EOF then ([], cs[1..])
    else
      var r := ReadBytes(cs[1..], n - 1);
      ([Unsigned(cs[0])] + r.0, r.1)
  }

  /** `readBytes` delivers the characters as they come, up to `n` of them or
      to the first `EOF`, which it consumes. */
  lemma {:induction false} ReadBytesTakesPrefix(cs: Input, n: nat)
    ensures var r := ReadBytes(cs, n);
      && (forall k :: 0 <= k < |r.0| ==> cs[k] != EOF && r.0[k] == Unsigned(cs[k]))
      && (|r.0| == n ==> r.1 == cs[n..])
      && (|r.0| < n ==>
            || (|r.0| == |cs| && r.1 == [])
            || (|r.0| < |cs| && cs[|r.0|] == EOF && r.1 == cs[|r.0| + 1..]))
    decreases n
  {
    if n > 0 && cs != [] && cs[0] != EOF {
      ReadBytesTakesPrefix(cs[1..], n - 1);
    }
  }

  /** Where a run of `getch()` calls that read `i` characters other than
      `EOF` stops, `readBytes` has read exactly those. */
  lemma {:induction false} ReadBytesStops(cs: Input, n: nat, i: nat)
    requires i <= n && i <= |cs|
    requires forall k :: 0 <= k < i ==> cs[k] != EOF
    requires i == n || i == |cs| || cs[i] == EOF
    ensures |ReadBytes(cs, n).0| == i
    ensures forall k :: 0 <= k < i ==> ReadBytes(cs, n).0[k] == Unsigned(cs[k])
    ensures ReadBytes(cs, n).1 == if i == n then cs[n..] else if i == |cs| then [] else cs[i + 1..]
    decreases i
  {
    if i > 0 {
      ReadBytesStops(cs[1..], n - 1, i - 1);
    }
  }

  /** The outcome of a parse routine: its return code, what is left of the
      stream, and the tree the `Value` it was handed now denotes.
      `Undefined` is an input this model does not follow: one on which the
      routine has undefined behaviour in C++ (a write past the string
      buffer, `strcmp` on a missing key), or one that stores a key of 64
      bytes or more, which the C++ keeps unterminated and `Key` cannot
      hold. */
  datatype Parsed = Parsed(code: int, rest: Input, item: Json) | Undefined

  predicate IsDigit(c: SChar)
  {
    '0' as int <= c <= '9' as int
  }

  /** `parseValue()`: skip blanks, then let the first character, read and
      pushed back, pick the parser to run. */
  function ParseValue(cs: Input, item: Json): (r: Parsed)
    ensures r.Parsed? ==> |r.rest| <= |cs|
    ensures r.Parsed? ==> r.code == 0 || r.code == EOF
    decreases |cs|, 3
  {
    var s := Skip(cs);
    if s.code == EOF then Parsed(EOF, s.rest, item)
    else
      var g := Getch(s.rest);
      if g.0 == EOF then Parsed(EOF, g.1, item)
      else Dispatch(Ungetch(g.1, g.0), g.0, item)
  }

  /** The parser `parseValue` runs on `cs` when its first character is `c`:
      string, number, array, object or one of the three words; anything
      else fails with `EOF`. */
  function Dispatch(cs: Input, c: SChar, item: Json): (r: Parsed)
    ensures r.Parsed? ==> |r.rest| <= |cs|
    ensures r.Parsed? ==> r.code == 0 || r.code == EOF
    decreases |cs|, 2
  {
    if c == QUOTE then ParseString(cs, item)
    else if c == MINUS || IsDigit(c) then ParseNumber(cs, item)
    else if c == LBRACKET then ParseArray(cs, item)
    else if c == LBRACE then ParseObject(cs, item)
    else if c == 'n' as int then ParseLiteral(cs, item, NULL_TEXT, JNull)
    else if c == 'f' as int then ParseLiteral(cs, item, FALSE_TEXT, JBool(false))
    else if c == 't' as int then ParseLiteral(cs, item, TRUE_TEXT, JBool(true))
    else Parsed(EOF, cs, item)
  }

  /** `null`, `false` and `true`: exactly as many bytes as the word is long
      are read; they must be the word. When too few arrive, `parseValue`
      answers `EOF` for all three. The branches differ only in the word (and
      in that a failed `null` returns at once while the others fall through
      to the final `return EOF`, with the same effect). */
  function ParseLiteral(cs: Input, item: Json, word: seq<Byte>, value: Json): (r: Parsed)
    ensures r.Parsed? && |r.rest| <= |cs|
    ensures r.code == 0 ==> r.item == value
    ensures r.code != 0 ==> r.code == EOF && r.item == item
  {
    var b := ReadBytes(cs, |word|);
    if |b.0| != |word| then Parsed(EOF, b.1, item)
    else if b.0 == word then Parsed(0, b.1, value)
    else Parsed(EOF, b.1, item)
  }

  /** The unescaped byte for `\c`, or `None` for an escape the parser does
      not understand (its slot in the buffer is left as it was: zero). */
  function Unescape(c: SChar): (r: Option<Byte>)
    ensures r.Some? ==> r.value != 0
  {
    if c == BACKSLASH then Some('\\' as int)
    else if c == QUOTE then Some('"' as int)
    else if c == '/' as int then Some('/' as int)
    else if c == 'b' as int then Some(8)
    else if c == 'f' as int then Some(12)
    else if c == 'n' as int then Some(10)
    else if c == 'r' as int then Some(13)
    else if c == 't' as int then Some(9)
    else None
  }

  /** `parseString()`. The string is collected in a 256-byte buffer cleared
      to zeros; the value built is the C string that buffer holds when the
      loop ends. */
  function ParseString(cs: Input, item: Json): (r: Parsed)
    ensures r.Parsed? ==> |r.rest| <= |cs|
    ensures r.Parsed? ==> r.code == 0 || r.code == EOF
    ensures r.Parsed? && r.code == 0 ==> r.item == item || r.item.JStr?
    ensures r.Parsed? && r.code == EOF ==> r.item == item
    decreases |cs|, 0
  {
    var g := Getch(cs);
    if g.0 != QUOTE then Parsed(EOF, g.1, item)
    else
      var g1 := Getch(g.1);
      if g1.0 == EOF then Parsed(0, g1.1, item)
      else StringBody(g1.1, g1.0, Cleared(), 0, item)
  }

  /** The inner loop of `parseString` with `c` just read (not `EOF`), `i`
      the next buffer index and `buf` the buffer so far. */
  function StringBody(cs: Input, c: SChar, buf: seq<Byte>, i: nat, item: Json): (r: Parsed)
    requires |buf| == 256 && c != EOF
    ensures r.Parsed? ==> |r.rest| <= |cs|
    ensures r.Parsed? ==> r.code == 0 || r.code == EOF
    ensures r.Parsed? && r.code == 0 ==> r.item.JStr?
    ensures r.Parsed? && r.code == EOF ==> r.item == item
    decreases |cs|, 1
  {
    if c == QUOTE || c < 32 then
      if 0 in buf then Parsed(0, cs, JStr(CString(buf))) else Undefined
    else if c != BACKSLASH then
      if i >= 256 then Undefined else StringNext(cs, buf[i := Unsigned(c)], i, item)
    else
      var e := Getch(cs);
      if e.0 == EOF then Parsed(EOF, e.1, item)
      else match Unescape(e.0)
        case Some(b) => if i >= 256 then Undefined else StringNext(e.1, buf[i := b], i, item)
        case None => StringNext(e.1, buf, i, item)
  }

  /** The end of one round of the inner loop: advance the index and read
      the next character, giving up with `EOF` when there is none. */
  function StringNext(cs: Input, buf: seq<Byte>, i: nat, item: Json): (r: Parsed)
    requires |buf| == 256
    ensures r.Parsed? ==> |r.rest| <= |cs|
    ensures r.Parsed? ==> r.code == 0 || r.code == EOF
    ensures r.Parsed? && r.code == 0 ==> r.item.JStr?
    ensures r.Parsed? && r.code == EOF ==> r.item == item
    decreases |cs|, 0
  {
    var g := Getch(cs);
    if g.0 == EOF then Parsed(EOF, g.1, item)
    else StringBody(g.1, g.0, buf, i + 1, item)
  }

  /** `n * 10 + (c - '0')`: the character `c` taken as the next decimal
      digit of `n`, whether or not it is a digit. */
  function Shift(n: int, c: SChar): int
  {
    n * 10 + (c - '0' as int)
  }

  /** `x * sign`, the sign being 1 or -1. */
  function WithSign(x: int, sign: int): int
  {
    x * sign
  }

  /** The integer part of a number, `c` being the character just read:
      its digits, if it is one, else 0. Answers the value, the character
      after the digits and the rest. */
  function IntPart(cs: Input, c: SChar): (r: (Int32, SChar, Input))
    ensures |r.2| <= |cs|
    ensures r.1 != EOF && IsDigit(c) ==> |r.2| < |cs|
    ensures !IsDigit(c) ==> r.1 == c && r.2 == cs
  {
    if IsDigit(c) then IntDigits(cs, c, 0) else (0, c, cs)
  }

  /** A run of decimal digits, the first of which (`c`) is already read,
      accumulated into an `int` that wraps on overflow. Answers the value,
      the first character after the run, and the rest. */
  function IntDigits(cs: Input, c: SChar, acc: Int32): (r: (Int32, SChar, Input))
    requires IsDigit(c)
    ensures !IsDigit(r.1) && |r.2| <= |cs|
    ensures r.1 != EOF ==> |r.2| < |cs|
    decreases |cs|
  {
    var acc' := Wrap32(Shift(acc, c));
    var (c2, rest) := Getch(cs);
    if IsDigit(c2) then IntDigits(rest, c2, acc') else (acc', c2, rest)
  }

  /** The fraction loop of `parseNumber`: a do-while, so `c` is taken as a
      digit whether it is one or not, and the loop goes on while digits
      follow. Answers the mantissa, the scale, the next character and rest. */
  function FracDigits(cs: Input, c: SChar, n: int, scale: int): (r: (int, int, SChar, Input))
    ensures !IsDigit(r.2) && |r.3| <= |cs|
    ensures r.2 != EOF ==> |r.3| < |cs|
    decreases |cs|
  {
    var n' := Shift(n, c);
    var (c2, rest) := Getch(cs);
    if IsDigit(c2) then FracDigits(rest, c2, n', scale - 1) else (n', scale - 1, c2, rest)
  }

  /** The exponent digits (a `while` loop: none at all is fine), in an
      `int` that wraps. */
  function ExpDigits(cs: Input, c: SChar, acc: Int32): (r: (Int32, SChar, Input))
    ensures !IsDigit(r.1) && |r.2| <= |cs|
    ensures !IsDigit(c) ==> r == (acc, c, cs)
    ensures IsDigit(c) && r.1 != EOF ==> |r.2| < |cs|
    decreases |cs| + (if IsDigit(c) then 1 else 0)
  {
    if !IsDigit(c) then (acc, c, cs)
    else
      var (c2, rest) := Getch(cs);
      ExpDigits(rest, c2, Wrap32(Shift(acc, c)))
  }

  /** `parseNumber()`. An optional `-`, integer digits, and then, if a `.`,
      `e` or `E` follows, a float: fraction digits and an exponent with an
      optional sign. The character that ends the number is pushed back. */
  function ParseNumber(cs: Input, item: Json): (r: Parsed)
    ensures r.Parsed? && |r.rest| <= |cs|
    ensures r.code == 0 || r.code == EOF
    ensures r.code == EOF ==> r.item == item
    ensures r.code == 0 ==> r.item.JInt? || r.item.JFloat?
    decreases |cs|, 0
  {
    var g := Getch(cs);
    if g.0 == EOF then Parsed(EOF, g.1, item)
    else if g.0 != MINUS then Number(g.1, g.0, 1)
    else
      var g2 := Getch(g.1);
      if g2.0 == EOF then Parsed(EOF, g2.1, item) else Number(g2.1, g2.0, -1)
  }

  /** `parseNumber()` after the sign, with `c` (not `EOF`) just read and
      `sign` 1 or -1: an `int`, or a float if a `.`, `e` or `E` follows the
      integer digits. Whatever ends the number is pushed back. */
  function Number(cs: Input, c: SChar, sign: int): (r: Parsed)
    requires c != EOF
    ensures r.Parsed? && r.code == 0 && |r.rest| <= |cs| + 1
    ensures r.item.JInt? || r.item.JFloat?
  {
    var n := IntPart(cs, c);
    if !(n.1 == DOT || n.1 == 'e' as int || n.1 == 'E' as int) then
      Parsed(0, Ungetch(n.2, n.1), JInt(Wrap32(WithSign(n.0, sign))))
    else
      var d := FloatPart(n.2, n.1, n.0);
      Parsed(0, Ungetch(d.2, d.1), JFloat(Decimal(WithSign(d.0.mantissa, sign), d.0.exponent)))
  }

  /** The float branch of `parseNumber`, entered at `c`, which is `.`, `e`
      or `E`, with `i` the integer part: the unsigned decimal, the character
      that ends it and the rest. */
  function FloatPart(cs: Input, c: SChar, i: Int32): (r: (Decimal, SChar, Input))
    requires c == DOT || c == 'e' as int || c == 'E' as int
    ensures |r.2| <= |cs|
    ensures r.1 != EOF ==> |r.2| < |cs|
  {
    var f := if c == DOT then FracDigits(Getch(cs).1, Getch(cs).0, i, 0) else (i, 0, c, cs);
    if f.2 == 'e' as int || f.2 == 'E' as int then
      var e := Exponent(f.3);
      (Decimal(f.0, f.1 + e.0), e.1, e.2)
    else
      (Decimal(f.0, f.1), f.2, f.3)
  }

  /** The exponent of a float, read after its `e` or `E`: an optional sign
      and the digits. Answers the signed exponent, the character after it
      and the rest. */
  function Exponent(cs: Input): (r: (int, SChar, Input))
    ensures |r.2| <= |cs|
    ensures r.1 != EOF ==> |r.2| < |cs|
  {
    var e := Getch(cs);
    var s := if e.0 == PLUS then (1, Getch(e.1)) else if e.0 == MINUS then (-1, Getch(e.1)) else (1, e);
    var x := ExpDigits(s.1.1, s.1.0, 0);
    (WithSign(x.0, s.0), x.1, x.2)
  }

  /** `parseArray()`: `[`, then either `]` at once or elements separated by
      commas. On failure the item is the array built so far. */
  function ParseArray(cs: Input, item: Json): (r: Parsed)
    ensures r.Parsed? ==> |r.rest| <= |cs|
    ensures r.Parsed? ==> r.code == 0 || r.code == EOF
    ensures r.Parsed? && r.code == 0 ==> r.item.JArr?
    decreases |cs|, 1
  {
    var g := Getch(cs);
    if g.0 != LBRACKET then Parsed(EOF, g.1, item) else ArrayContents(g.1)
  }

  /** `parseArray()` after the `[`: `]` at once gives the empty array,
      anything else is pushed back for the element loop. */
  function ArrayContents(cs: Input): (r: Parsed)
    ensures r.Parsed? ==> |r.rest| <= |cs|
    ensures r.Parsed? ==> r.code == 0 || r.code == EOF
    ensures r.Parsed? ==> r.item.JArr?
    decreases |cs|, 5
  {
    var g := Getch(Skip(cs).rest);
    if g.0 == RBRACKET then Parsed(0, g.1, JArr([]))
    else Elements(Ungetch(g.1, g.0), [])
  }

  /** One round of the element loop of `parseArray`, with `items` parsed so
      far: a value, then a comma for another round or `]` to end. */
  function Elements(cs: Input, items: seq<Json>): (r: Parsed)
    ensures r.Parsed? ==> |r.rest| <= |cs|
    ensures r.Parsed? ==> r.code == 0 || r.code == EOF
    ensures r.Parsed? ==> r.item.JArr?
    decreases |cs|, 4
  {
    var v := ParseValue(Skip(cs).rest, JNull);
    if v.Undefined? then Undefined
    else if v.code != 0 then Parsed(EOF, v.rest, JArr(items))
    else AfterElement(v.rest, items + [v.item])
  }

  /** The end of a round of the element loop, `items` now holding its
      value: a comma calls for another round, `]` ends the array and
      anything else fails. */
  function AfterElement(cs: Input, items: seq<Json>): (r: Parsed)
    ensures r.Parsed? ==> |r.rest| <= |cs|
    ensures r.Parsed? ==> r.code == 0 || r.code == EOF
    ensures r.Parsed? ==> r.item.JArr?
    decreases |cs|, 3
  {
    var g := Getch(Skip(cs).rest);
    if g.0 == COMMA then Elements(g.1, items)
    else Parsed(if g.0 == RBRACKET then 0 else EOF, g.1, JArr(items))
  }

  /** `parseObject()`: `{`, then either `}` at once or members separated by
      commas. On failure the item is the object built so far. */
  function ParseObject(cs: Input, item: Json): (r: Parsed)
    ensures r.Parsed? ==> |r.rest| <= |cs|
    ensures r.Parsed? ==> r.code == 0 || r.code == EOF
    ensures r.Parsed? && r.code == 0 ==> r.item.JObj?
    decreases |cs|, 1
  {
    var g := Getch(cs);
    if g.0 != LBRACE then Parsed(EOF, g.1, item) else ObjectContents(g.1)
  }

  /** `parseObject()` after the `{`: `}` at once gives the empty object,
      anything else is pushed back for the member loop. */
  function ObjectContents(cs: Input): (r: Parsed)
    ensures r.Parsed? ==> |r.rest| <= |cs|
    ensures r.Parsed? ==> r.code == 0 || r.code == EOF
    ensures r.Parsed? ==> r.item.JObj?
    decreases |cs|, 5
  {
    var g := Getch(Skip(cs).rest);
    if g.0 == RBRACE then Parsed(0, g.1, JObj([]))
    else Members(Ungetch(g.1, g.0), [])
  }

  /** One round of the member loop of `parseObject`: a string key, `:`, a
      value, then a comma for another round or `}` to end. Each member is
      stored as `obj[key] = value` stores it. A key that is not a string is
      undefined behaviour (`strcmp` on a NULL key). A key of 64 bytes or
      more is copied by `strncpy` without its terminator; the model does not
      store such a key and takes the input as `Undefined`. */
  function Members(cs: Input, slots: seq<Slot<Json>>): (r: Parsed)
    ensures r.Parsed? ==> |r.rest| <= |cs|
    ensures r.Parsed? ==> r.code == 0 || r.code == EOF
    ensures r.Parsed? ==> r.item.JObj?
    decreases |cs|, 4
  {
    var k := ParseString(Skip(cs).rest, JNull);
    if k.Undefined? then Undefined
    else if k.code == EOF then Parsed(EOF, k.rest, JObj(slots))
    else AfterKey(k.rest, slots, k.item)
  }

  /** Between the key `key` and its value: skip, `:`, skip. */
  function AfterKey(cs: Input, slots: seq<Slot<Json>>, key: Json): (r: Parsed)
    ensures r.Parsed? ==> |r.rest| <= |cs|
    ensures r.Parsed? ==> r.code == 0 || r.code == EOF
    ensures r.Parsed? ==> r.item.JObj?
    decreases |cs|, 3
  {
    var g := Getch(Skip(cs).rest);
    if g.0 != COLON then Parsed(EOF, g.1, JObj(slots))
    else Member(Skip(g.1).rest, slots, key)
  }

  /** The second half of a round of `Members`: the value of key `key`,
      then the member is stored and a comma or `}` follows. */
  function Member(cs: Input, slots: seq<Slot<Json>>, key: Json): (r: Parsed)
    ensures r.Parsed? ==> |r.rest| <= |cs|
    ensures r.Parsed? ==> r.code == 0 || r.code == EOF
    ensures r.Parsed? ==> r.item.JObj?
    decreases |cs|, 4
  {
    var v := ParseValue(cs, JNull);
    if v.Undefined? then Undefined
    else if v.code == EOF then Parsed(EOF, v.rest, JObj(slots))
    else if !key.JStr? || |key.s| >= 64 then Undefined
    else AfterMember(v.rest, Assign(slots, key.s, JNull, v.item))
  }

  /** The end of a round of the member loop, `slots` now holding its
      member: a comma calls for another round, `}` ends the object and
      anything else fails. */
  function AfterMember(cs: Input, slots: seq<Slot<Json>>): (r: Parsed)
    ensures r.Parsed? ==> |r.rest| <= |cs|
    ensures r.Parsed? ==> r.code == 0 || r.code == EOF
    ensures r.Parsed? ==> r.item.JObj?
    decreases |cs|, 3
  {
    var g := Getch(Skip(cs).rest);
    if g.0 == COMMA then Members(g.1, slots)
    else Parsed(if g.0 == RBRACE then 0 else EOF, g.1, JObj(slots))
  }

  /** `Json::parse(text)`: skip leading blanks, parse one value into a
      null `Value` and return that value, whatever the return code. */
  function Parse(cs: Input): (r: Option<Json>)
    ensures r.None? <==> ParseValue(Skip(cs).rest, JNull).Undefined?
  {
    var p := ParseValue(Skip(cs).rest, JNull);
    if p.Undefined? then None else Some(p.item)
  }

  /** No value starts with a character other than `"`, `-`, a digit, `[`,
      `{`, `n`, `f` or `t`: whatever the input, the parse fails and nothing
      is consumed. */
  lemma DispatchRejects(cs: Input, c: SChar, item: Json)
    requires c != QUOTE && c != MINUS && !IsDigit(c) && c != LBRACKET && c != LBRACE
    requires c != 'n' as int && c != 'f' as int && c != 't' as int
    ensures Dispatch(cs, c, item) == Parsed(EOF, cs, item)
  {
  }

  /** The same seen from `parseValue`: such a character, where a value is
      due, is pushed back and the parse fails. */
  lemma ValueRejects(c: SChar, r: Input, item: Json)
    requires 32 < c && c != QUOTE && c != MINUS && !IsDigit(c) && c != LBRACKET && c != LBRACE
    requires c != 'n' as int && c != 'f' as int && c != 't' as int
    ensures ParseValue([c] + r, item) == Parsed(EOF, [c] + r, item)
  {
    assert Skip([c] + r) == Step(0, [c] + r);
    assert Getch([c] + r) == (c, r);
  }

  /** `null`, `false` and `true` are accepted exactly when the bytes that
      follow spell the word; too few bytes, or others, fail. */
  lemma {:induction false} LiteralMatches(cs: Input, item: Json, word: seq<Byte>, value: Json)
    requires forall i :: 0 <= i < |word| ==> 0 < word[i] < 128
    ensures ParseLiteral(cs, item, word, value).code == 0 <==> |word| <= |cs| && cs[..|word|] == word
  {
    if |word| <= |cs| && cs[..|word|] == word {
      WordIsRead(cs, word);
    }
    if ReadBytes(cs, |word|).0 == word {
      ReadIsWord(cs, word);
    }
  }

  /** Bytes that spell the word are read back as the word. */
  lemma WordIsRead(cs: Input, word: seq<Byte>)
    requires forall i :: 0 <= i < |word| ==> 0 < word[i] < 128
    requires |word| <= |cs| && cs[..|word|] == word
    ensures ReadBytes(cs, |word|).0 == word
  {
    var n := |word|;
    forall k | 0 <= k < n
      ensures cs[k] == word[k] && cs[k] != EOF
    {
      assert cs[..n][k] == cs[k];
    }
    ReadBytesStops(cs, n, n);
    var b := ReadBytes(cs, n).0;
    assert |b| == n;
    forall k | 0 <= k < n
      ensures b[k] == word[k]
    {
      assert b[k] == Unsigned(cs[k]);
    }
  }

  /** Reading the word back means the input starts with it. */
  lemma {:induction false} ReadIsWord(cs: Input, word: seq<Byte>)
    requires forall i :: 0 <= i < |word| ==> 0 < word[i] < 128
    requires ReadBytes(cs, |word|).0 == word
    ensures |word| <= |cs| && cs[..|word|] == word
  {
    if word != [] {
      var n := |word|;
      assert cs != [] && cs[0] != EOF;
      var tail := ReadBytes(cs[1..], n - 1).0;
      assert [Unsigned(cs[0])] + tail == word;
      assert Unsigned(cs[0]) == word[0] && tail == word[1..];
      ReadIsWord(cs[1..], word[1..]);
      assert cs[..n] == [cs[0]] + cs[1..][..n - 1];
    }
  }

  /** A quote with nothing after it is taken as a string that was never
      read: the return code is 0 and the target is left as it was. */
  lemma LoneQuote(item: Json)
    ensures ParseString([QUOTE], item) == Parsed(0, [], item)
  {
  }

  /** Where an element is due, `]` is no value: so after a comma it fails,
      and `[1,]` is rejected with the elements read before it. */
  lemma CloseWhereElementIsDue(r: Input, items: seq<Json>)
    ensures Elements([RBRACKET] + r, items) == Parsed(EOF, [RBRACKET] + r, JArr(items))
    ensures AfterElement([COMMA, RBRACKET] + r, items) == Parsed(EOF, [RBRACKET] + r, JArr(items))
  {
    ValueRejects(RBRACKET, r, JNull);
    assert Skip([RBRACKET] + r) == Step(0, [RBRACKET] + r);
    assert Skip([COMMA, RBRACKET] + r) == Step(0, [COMMA, RBRACKET] + r);
    assert ([COMMA, RBRACKET] + r)[1..] == [RBRACKET] + r;
  }

  /** An array whose input ends before its `]`, right after an element or
      after a comma, fails with the elements read so far. */
  lemma ArrayRunsOut(items: seq<Json>)
    ensures Elements([], items) == Parsed(EOF, [], JArr(items))
    ensures AfterElement([], items) == Parsed(EOF, [], JArr(items))
    ensures AfterElement([COMMA], items) == Parsed(EOF, [], JArr(items))
  {
    assert Skip([COMMA]) == Step(0, [COMMA]);
    assert Getch([COMMA]) == (COMMA, []);
  }

  /** A minus sign not followed by a digit still makes a number: the
      integer part is 0, and the character after the sign is pushed back. */
  lemma LoneMinusIsZero(c: SChar, r: Input, item: Json)
    requires c != EOF && !IsDigit(c) && c != DOT && c != 'e' as int && c != 'E' as int
    ensures ParseNumber([MINUS, c] + r, item) == Parsed(0, [c] + r, JInt(0))
  {
    assert [MINUS, c] + r == [MINUS] + ([c] + r);
  }

  /** A minus sign at the end of the input fails with `EOF`. */
  lemma MinusAtEnd(item: Json)
    ensures ParseNumber([MINUS], item) == Parsed(EOF, [], item)
  {
  }
}
