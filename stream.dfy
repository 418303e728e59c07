/** `aJsonStringStream` (json.h, json.cpp): a stream over a C string, with
    the one-character push-back of `aJsonStream`, an optional output buffer,
    and the parser routines of parse.cpp and json.cpp as its methods. Each
    parser method is proved to do what the function of the same name in
    `ParseSpec` says, building the arrays and objects it finds on the heap. */
module Streams {
  import opened Base
  import opened Containers
  import opened JsonTypes
  import opened ParseSpec

  /** The characters a run of bytes reads as through a signed `char`. */
  function Widen(bs: seq<Byte>): (cs: Input)
    ensures |cs| == |bs|
    ensures bs != [] ==> cs[0] == Signed(bs[0])
  {
    if bs == [] then [] else [Signed(bs[0])] + Widen(bs[1..])
  }

  class StringStream {
    /** `bucket`: the pushed-back character, or `EOF` for none. */
    var bucket: SChar
    /** `inbuf`: the bytes of the C string the stream was made over, none
        for NULL. Nothing writes to them while the stream reads them, so
        they are held as a value. They are read from `inPos` on, for
        `inLen` more bytes (`inbuf_len`). */
    const inbuf: seq<Byte>
    var inPos: nat
    var inLen: nat
    /** `outbuf`: the output buffer, NULL allowed; the next byte goes to
        `outPos`, and `outLen` (`outbuf_len`) bytes are left, the
        terminator's included. */
    const outbuf: array?<Byte>
    var outPos: nat
    var outLen: nat
    /** The bytes accepted by `write` so far. */
    ghost var Written: seq<Byte>

    /** The input side is well formed: what is left lies in the buffer. */
    ghost predicate Valid()
      reads this
    {
      inPos + inLen <= |inbuf|
    }

    /** The output side is well formed. */
    ghost predicate Writable()
      reads this, outbuf
    {
      OutputHolds(outPos, outLen, Written)
    }

    /** `written` is what the output buffer holds, terminated, with `len`
        bytes of room left from `pos` on. */
    ghost predicate OutputHolds(pos: nat, len: nat, written: seq<Byte>)
      reads outbuf
    {
      && pos == |written|
      && (outbuf == null ==> written == [])
      && (outbuf != null ==>
            && pos + len <= outbuf.Length
            && outbuf[..pos] == written
            && (pos > 0 ==> len >= 1 && outbuf[pos] == 0))
    }

    /** The characters the coming `getch()` calls return, in order. */
    ghost function Chars(): Input
      reads this
    {
      if bucket == EOF then Unread(inPos, inLen) else [bucket] + Unread(inPos, inLen)
    }

    /** The characters of `len` input bytes from `pos` on. */
    ghost function Unread(pos: nat, len: nat): Input
    {
      if pos + len > |inbuf| then [] else Widen(inbuf[pos..pos + len])
    }

    /** The output side of the stream is as it was. */
    twostate predicate OutputKept()
      reads this
    {
      outPos == old(outPos) && outLen == old(outLen) && Written == old(Written)
    }

    /** `aJsonStringStream(inbuf, outbuf, outbuf_len)`: the input is the C
        string `inbuf` holds (none for NULL), nothing is pushed back and
        nothing is written yet. */
    constructor (inbuf: array?<Byte>, outbuf: array?<Byte>, outLen: nat)
      requires inbuf != null ==> 0 in inbuf[..]
      requires outbuf != null ==> outLen <= outbuf.Length
      ensures Valid() && Writable() && Written == [] && bucket == EOF
      ensures this.outbuf == outbuf
      ensures this.inbuf == (if inbuf == null then [] else CString(inbuf[..]))
      ensures Chars() == Widen(this.inbuf)
    {
      var input := if inbuf == null then [] else CString(inbuf[..]);
      this.inbuf := input;
      this.outbuf := outbuf;
      this.outLen := if outbuf == null then 0 else outLen;
      bucket := EOF;
      inPos := 0;
      inLen := |input|;
      outPos := 0;
      Written := [];
      new;
      assert input[0..inLen] == input;
    }

    /** `available()`: a character is pushed back or input is left, that is,
        `getch()` would not answer `EOF` for want of input. */
    method Available() returns (b: bool)
      requires Valid()
      ensures b <==> Chars() != []
    {
      if bucket != EOF {
        return true;
      }
      b := inLen > 0;
    }

    /** `getch()`: the pushed-back character if there is one, else the next
        input byte as a `char`, else `EOF`. */
    method Getch() returns (c: SChar)
      requires Valid()
      modifies this
      ensures Valid() && OutputKept() && bucket == EOF
      ensures old(Chars()) == [] ==> c == EOF && Chars() == []
      ensures old(Chars()) != [] ==> c == old(Chars())[0] && Chars() == old(Chars())[1..]
    {
      if bucket != EOF {
        c := bucket;
        bucket := EOF;
        assert old(Chars()) == [c] + Chars();
        return;
      }
      if inLen == 0 {
        return EOF;
      }
      c := Signed(inbuf[inPos]);
      UnreadStep(inPos, inLen);
      inPos := inPos + 1;
      inLen := inLen - 1;
    }

    /** Reading one byte of the input: its character comes first. */
    lemma UnreadStep(pos: nat, len: nat)
      requires 0 < len && pos + len <= |inbuf|
      ensures Unread(pos, len) == [Signed(inbuf[pos])] + Unread(pos + 1, len - 1)
    {
      assert inbuf[pos..pos + len][1..] == inbuf[pos + 1..pos + len];
    }

    /** `ungetch(c)`: `c` becomes the bucket, replacing whatever was there.
        Right after a `getch()` the bucket is empty, so `c` comes next. */
    method Ungetch(c: SChar)
      requires Valid()
      modifies this
      ensures Valid() && OutputKept()
      ensures bucket == c && inPos == old(inPos) && inLen == old(inLen)
      ensures old(bucket) == EOF ==> Chars() == ParseSpec.Ungetch(old(Chars()), c)
    {
      bucket := c;
    }

    /** `write(ch)`: with a buffer that has room for `ch` and a terminator,
        store `ch`, terminate the text and answer 1; otherwise answer 0. */
    method Write(ch: Byte) returns (n: nat)
      requires Writable()
      modifies this, outbuf
      ensures Writable()
      ensures bucket == old(bucket) && inPos == old(inPos) && inLen == old(inLen)
      ensures n == if old(outbuf != null && outLen > 1) then 1 else 0
      ensures Written == old(Written) + (if n == 1 then [ch] else [])
      ensures outLen == old(outLen) - n && outPos == old(outPos) + n
      ensures n == 0 && outbuf != null ==> unchanged(outbuf)
      ensures n == 1 ==> outbuf[..] == old(outbuf[..])[old(outPos) := ch][old(outPos) + 1 := 0]
    {
      if outbuf == null || outLen <= 1 {
        return 0;
      }
      outbuf[outPos] := ch;
      outPos := outPos + 1;
      outLen := outLen - 1;
      outbuf[outPos] := 0;
      Written := Written + [ch];
      n := 1;
    }

    /** `readBytes(buffer, len)`: up to `len` characters into `buffer`,
        stopping at `EOF`; answers how many were stored. */
    method ReadBytes(buffer: array<Byte>, len: nat) returns (n: nat)
      requires Valid() && len <= buffer.Length
      modifies this, buffer
      ensures Valid() && OutputKept()
      ensures n == |ParseSpec.ReadBytes(old(Chars()), len).0| <= len
      ensures forall k :: 0 <= k < n ==> buffer[k] == ParseSpec.ReadBytes(old(Chars()), len).0[k]
      ensures Chars() == ParseSpec.ReadBytes(old(Chars()), len).1
    {
      ghost var cs := Chars();
      var i := 0;
      while i < len
        invariant 0 <= i <= len && i <= |cs| && Valid() && OutputKept()
        invariant Chars() == cs[i..]
        invariant forall k :: 0 <= k < i ==> cs[k] != EOF && buffer[k] == Unsigned(cs[k])
      {
        var ch := Getch();
        if ch == EOF {
          ReadBytesStops(cs, len, i);
          return i;
        }
        buffer[i] := Unsigned(ch);
        i := i + 1;
      }
      ReadBytesStops(cs, len, i);
      return len;
    }

    /** `skip()`. */
    method Skip() returns (code: int)
      requires Valid()
      modifies this
      ensures Valid() && OutputKept()
      ensures Step(code, Chars()) == ParseSpec.Skip(old(Chars()))
    {
      var ch := Getch();
      while ch != EOF && ch <= 32
        invariant Valid() && OutputKept() && bucket == EOF
        invariant ParseSpec.Skip(old(Chars())) ==
          if IsBlank(ch) then ParseSpec.Skip(Chars()) else if ch == EOF then Step(EOF, Chars()) else Step(0, [ch] + Chars())
        decreases |Chars()| + if ch == EOF then 0 else 1
      {
        ch := Getch();
      }
      if ch != EOF {
        Ungetch(ch);
        return 0;
      }
      return EOF;
    }

    /** `flush()`: read until `getch()` answers `EOF`. */
    method Flush() returns (code: int)
      requires Valid()
      modifies this
      ensures Valid() && OutputKept()
      ensures Step(code, Chars()) == ParseSpec.Flush(old(Chars()))
    {
      var ch := Getch();
      while ch != EOF
        invariant Valid() && OutputKept() && bucket == EOF
        invariant ParseSpec.Flush(old(Chars())) == if ch == EOF then Step(EOF, Chars()) else ParseSpec.Flush(Chars())
        decreases |Chars()| + if ch == EOF then 0 else 1
      {
        ch := Getch();
      }
      return EOF;
    }
  
    /** `parseNumber(item)`, for an `item` that is null, as it is at every
        call: the number read, or null with `EOF` when there is none. */
    method ParseNumber() returns (code: int, result: Value)
      requires Valid()
      modifies this
      ensures Valid() && OutputKept()
      ensures var p := ParseSpec.ParseNumber(old(Chars()), JNull);
        code == p.code && Chars() == p.rest && result == Scalar(p.item)
    {
      var sign := 1;
      var ch: SChar := Getch();
      if ch == EOF {
        return EOF, Null;
      }
      if ch == MINUS {
        sign := -1;
        ch := Getch();
        if ch == EOF {
          return EOF, Null;
        }
      }
      result := Number(ch, sign);
      code := 0;
    }

    /** The rest of `parseNumber`, with `ch` (not `EOF`) just read after
        the optional `-` and `sign` its sign. */
    method Number(ch: SChar, sign: int) returns (result: Value)
      requires Valid() && bucket == EOF && ch != EOF
      modifies this
      ensures Valid() && OutputKept()
      ensures var p := ParseSpec.Number(old(Chars()), ch, sign);
        Chars() == p.rest && result == Scalar(p.item)
    {
      ghost var p := ParseSpec.Number(Chars(), ch, sign);
      var i, c := IntegerPart(ch);
      if !(c == DOT || c == 'e' as int || c == 'E' as int) {
        result := Int(Wrap32(WithSign(i, sign)));
        assert p == Parsed(0, ParseSpec.Ungetch(Chars(), c), JInt(Wrap32(WithSign(i, sign))));
      } else {
        var d;
        ghost var f := ParseSpec.FloatPart(Chars(), c, i);
        d, c := FloatPart(c, i);
        result := Float(Decimal(WithSign(d.mantissa, sign), d.exponent));
        assert p == Parsed(0, ParseSpec.Ungetch(f.2, f.1), JFloat(Decimal(WithSign(f.0.mantissa, sign), f.0.exponent)));
      }
      Ungetch(c);
    }

    /** The integer part of `parseNumber`, with `ch` just read: its
        digits if it is one, and the character after them. */
    method IntegerPart(ch: SChar) returns (i: Int32, c: SChar)
      requires Valid() && bucket == EOF
      modifies this
      ensures Valid() && OutputKept() && bucket == EOF
      ensures var r := ParseSpec.IntPart(old(Chars()), ch);
        i == r.0 && c == r.1 && Chars() == r.2
    {
      i, c := 0, ch;
      if IsDigit(c) {
        i, c := IntegerDigits(c);
      }
    }

    /** The integer loop of `parseNumber`, entered with the digit `ch` just
        read: the value, wrapped to an `int`, and the character after the
        digits. */
    method IntegerDigits(ch: SChar) returns (i: Int32, c: SChar)
      requires Valid() && bucket == EOF && IsDigit(ch)
      modifies this
      ensures Valid() && OutputKept() && bucket == EOF
      ensures var r := ParseSpec.IntDigits(old(Chars()), ch, 0);
        i == r.0 && c == r.1 && Chars() == r.2
    {
      ghost var digits := ParseSpec.IntDigits(Chars(), ch, 0);
      i, c := 0, ch;
      while true
        invariant Valid() && OutputKept() && bucket == EOF
        invariant IsDigit(c) && ParseSpec.IntDigits(Chars(), c, i) == digits
        decreases |Chars()|
      {
        i := Wrap32(Shift(i, c));
        c := Getch();
        if !IsDigit(c) {
          assert digits == (i, c, Chars());
          return;
        }
      }
    }

    /** The float branch of `parseNumber`, entered with `ch` (`.`, `e` or
        `E`) just read and `i` the integer part: the fraction digits and the
        exponent. Answers the unsigned number and the character after it. */
    method FloatPart(ch: SChar, i: Int32) returns (d: Decimal, c: SChar)
      requires Valid() && bucket == EOF
      requires ch == DOT || ch == 'e' as int || ch == 'E' as int
      modifies this
      ensures Valid() && OutputKept() && bucket == EOF
      ensures var f := ParseSpec.FloatPart(old(Chars()), ch, i);
        d == f.0 && c == f.1 && Chars() == f.2
    {
      var n: int := i;
      var scale := 0;
      c := ch;
      if c == DOT {
        c := Getch();
        n, scale, c := FractionDigits(c, n);
      }
      if c == 'e' as int || c == 'E' as int {
        var subscale;
        subscale, c := Exponent();
        d := Decimal(n, scale + subscale);
      } else {
        d := Decimal(n, scale);
      }
    }

    /** The exponent of `parseNumber`, after its `e` or `E`: an optional
        sign, then the digits. Answers the signed exponent and the character
        after it. */
    method Exponent() returns (subscale: int, c: SChar)
      requires Valid() && bucket == EOF
      modifies this
      ensures Valid() && OutputKept() && bucket == EOF
      ensures var r := ParseSpec.Exponent(old(Chars()));
        subscale == r.0 && c == r.1 && Chars() == r.2
    {
      c := Getch();
      var signsub := 1;
      if c == PLUS {
        c := Getch();
      } else if c == MINUS {
        signsub := -1;
        c := Getch();
      }
      var digits;
      digits, c := ExponentDigits(c);
      subscale := WithSign(digits, signsub);
    }

    /** The fraction loop of `parseNumber`, a do-while entered with `ch`
        just read after the `.`: the mantissa extended by the digits, the
        scale and the character after them. */
    method FractionDigits(ch: SChar, n0: int) returns (n: int, scale: int, c: SChar)
      requires Valid() && bucket == EOF
      modifies this
      ensures Valid() && OutputKept() && bucket == EOF
      ensures var r := ParseSpec.FracDigits(old(Chars()), ch, n0, 0);
        n == r.0 && scale == r.1 && c == r.2 && Chars() == r.3
    {
      ghost var frac := ParseSpec.FracDigits(Chars(), ch, n0, 0);
      n, scale, c := n0, 0, ch;
      while true
        invariant Valid() && OutputKept() && bucket == EOF
        invariant ParseSpec.FracDigits(Chars(), c, n, scale) == frac
        decreases |Chars()|
      {
        n := Shift(n, c);
        scale := scale - 1;
        c := Getch();
        if !IsDigit(c) {
          assert frac == (n, scale, c, Chars());
          return;
        }
      }
    }

    /** The exponent loop of `parseNumber`, a plain `while` entered with
        `ch` just read: the digits as a wrapping `int` and the character
        after them. */
    method ExponentDigits(ch: SChar) returns (subscale: Int32, c: SChar)
      requires Valid() && bucket == EOF
      modifies this
      ensures Valid() && OutputKept() && bucket == EOF
      ensures var r := ParseSpec.ExpDigits(old(Chars()), ch, 0);
        subscale == r.0 && c == r.1 && Chars() == r.2
    {
      ghost var exp := ParseSpec.ExpDigits(Chars(), ch, 0);
      subscale, c := 0, ch;
      while IsDigit(c)
        invariant Valid() && OutputKept() && bucket == EOF
        invariant ParseSpec.ExpDigits(Chars(), c, subscale) == exp
        decreases |Chars()| + if IsDigit(c) then 1 else 0
      {
        subscale := Wrap32(Shift(subscale, c));
        c := Getch();
      }
    }
  
    /** `parseString(item)`, for a null `item`: a quoted string, unescaped
        into a 256-byte buffer of zeros, becomes a string value; `EOF` when
        the first character is not a quote or the input ends inside the
        string. */
    method ParseString() returns (code: int, result: Value)
      requires Valid()
      requires ParseSpec.ParseString(Chars(), JNull).Parsed?
      modifies this
      ensures Valid() && OutputKept()
      ensures var p := ParseSpec.ParseString(old(Chars()), JNull);
        code == p.code && Chars() == p.rest && result == Scalar(p.item)
    {
      var ch := Getch();
      if ch != QUOTE {
        return EOF, Null;
      }
      var buffer := new Byte[256](_ => 0);
      ch := Getch();
      if ch == EOF {
        return 0, Null;
      }
      assert buffer[..] == ParseSpec.Cleared();
      code, result := StringChars(buffer, ch);
    }

    /** The loop of `parseString`, with `ch` (not `EOF`) the character
        just read and `buffer` the string so far. */
    method StringChars(buffer: array<Byte>, ch: SChar) returns (code: int, result: Value)
      requires Valid() && bucket == EOF && ch != EOF && buffer.Length == 256
      requires ParseSpec.StringBody(Chars(), ch, buffer[..], 0, JNull).Parsed?
      modifies this, buffer
      ensures Valid() && OutputKept()
      ensures var p := ParseSpec.StringBody(old(Chars()), ch, old(buffer[..]), 0, JNull);
        code == p.code && Chars() == p.rest && result == Scalar(p.item)
    {
      ghost var goal := ParseSpec.StringBody(Chars(), ch, buffer[..], 0, JNull);
      var i := 0;
      var c := ch;
      while c != QUOTE && c >= 32
        invariant Valid() && OutputKept() && bucket == EOF && c != EOF
        invariant ParseSpec.StringBody(Chars(), c, buffer[..], i, JNull) == goal
        decreases |Chars()|
      {
        c := StringStep(buffer, i, c);
        if c == EOF {
          return EOF, Null;
        }
        i := i + 1;
      }
      result := FromCString(buffer);
      code := 0;
    }

    /** One round of the loop of `parseString`: store `c` or its escape at
        `buffer[i]`, then read the next character. Answers `EOF` where
        `parseString` gives up. */
    method StringStep(buffer: array<Byte>, i: nat, c: SChar) returns (next: SChar)
      requires Valid() && bucket == EOF && buffer.Length == 256
      requires c != EOF && c != QUOTE && c >= 32
      requires ParseSpec.StringBody(Chars(), c, buffer[..], i, JNull).Parsed?
      modifies this, buffer
      ensures Valid() && OutputKept() && bucket == EOF
      ensures next != EOF ==> |Chars()| < old(|Chars()|)
      ensures var p := ParseSpec.StringBody(old(Chars()), c, old(buffer[..]), i, JNull);
        if next == EOF then p == Parsed(EOF, Chars(), JNull)
        else p == ParseSpec.StringBody(Chars(), next, buffer[..], i + 1, JNull)
    {
      var stored := StoreChar(buffer, i, c);
      if !stored {
        return EOF;
      }
      next := Getch();
    }

    /** The body of the loop of `parseString` up to `i++`: store `c`, or
        the escape it starts, at `buffer[i]`. Answers false where the input
        ends after a backslash, so that `parseString` gives up with `EOF`. */
    method StoreChar(buffer: array<Byte>, i: nat, c: SChar) returns (stored: bool)
      requires Valid() && bucket == EOF && buffer.Length == 256
      requires c != EOF && c != QUOTE && c >= 32
      requires ParseSpec.StringBody(Chars(), c, buffer[..], i, JNull).Parsed?
      modifies this, buffer
      ensures Valid() && OutputKept() && bucket == EOF && |Chars()| <= old(|Chars()|)
      ensures var p := ParseSpec.StringBody(old(Chars()), c, old(buffer[..]), i, JNull);
        if stored then p == ParseSpec.StringNext(Chars(), buffer[..], i, JNull)
        else p == Parsed(EOF, Chars(), JNull)
    {
      ghost var buf := buffer[..];
      if c != BACKSLASH {
        buffer[i] := Unsigned(c);
        assert buffer[..] == buf[i := Unsigned(c)];
        return true;
      }
      var e := Getch();
      if e == EOF {
        return false;
      }
      match Unescape(e) {
        case Some(b) =>
          buffer[i] := b;
          assert buffer[..] == buf[i := b];
        case None =>
      }
      stored := true;
    }
  
    /** `parseValue(item)`, for a null `item`, as at every call: skip
        blanks and run the parser the first character picks. The value
        built is new: nothing it is stored in existed before the call. */
    method ParseValue() returns (code: int, result: Value)
      requires Valid()
      requires ParseSpec.ParseValue(Chars(), JNull).Parsed?
      modifies this
      ensures Valid() && OutputKept()
      ensures var p := ParseSpec.ParseValue(old(Chars()), JNull);
        code == p.code && Chars() == p.rest && TreeOf(result) == p.item
      ensures ValueValid(result) && fresh(Fp(result))
      decreases |Chars()|, 3
    {
      var skipped := Skip();
      if skipped == EOF {
        return EOF, Null;
      }
      var ch := Getch();
      if ch == EOF {
        // `skip()` has just pushed a character back
        assert false;
      }
      Ungetch(ch);
      code, result := Dispatch(ch);
    }

    /** The branches of `parseValue` on its first character `ch`, which is
        back in the bucket. */
    method Dispatch(ch: SChar) returns (code: int, result: Value)
      requires Valid() && bucket == ch
      requires ParseSpec.Dispatch(Chars(), ch, JNull).Parsed?
      modifies this
      ensures Valid() && OutputKept()
      ensures var p := ParseSpec.Dispatch(old(Chars()), ch, JNull);
        code == p.code && Chars() == p.rest && TreeOf(result) == p.item
      ensures ValueValid(result) && fresh(Fp(result))
      decreases |Chars()|, 2
    {
      if ch == QUOTE {
        code, result := ParseString();
      } else if ch == MINUS || IsDigit(ch) {
        code, result := ParseNumber();
      } else if ch == LBRACKET {
        code, result := ParseArray();
      } else if ch == LBRACE {
        code, result := ParseObject();
      } else if ch == 'n' as int {
        code, result := ParseLiteral(NULL_TEXT, Null);
      } else if ch == 'f' as int {
        code, result := ParseLiteral(FALSE_TEXT, Bool(false));
      } else if ch == 't' as int {
        code, result := ParseLiteral(TRUE_TEXT, Bool(true));
      } else {
        code, result := EOF, Null;
      }
    }

    /** The `null`, `false` and `true` branches of `parseValue`: read as
        many bytes as `word` has into a zeroed buffer and compare them with
        it as `strncmp` does; on a match the item becomes `value`. */
    method ParseLiteral(word: seq<Byte>, value: Value) returns (code: int, result: Value)
      requires Valid() && NodeOf(value) == {}
      modifies this
      ensures Valid() && OutputKept()
      ensures var p := ParseSpec.ParseLiteral(old(Chars()), JNull, word, TreeOf(value));
        code == p.code && Chars() == p.rest && TreeOf(result) == p.item
      ensures result == value || result == Null
    {
      var buffer := new Byte[|word|](_ => 0);
      var n := ReadBytes(buffer, |word|);
      if n != |word| {
        return EOF, Null;
      }
      assert buffer[..] == ParseSpec.ReadBytes(old(Chars()), |word|).0;
      if buffer[..] == word {
        return 0, value;
      }
      return EOF, Null;
    }

    /** `parseArray(item)`, for a null `item`: on `[` the item becomes a new
        array, and the elements are appended to it as they are parsed. */
    method ParseArray() returns (code: int, result: Value)
      requires Valid()
      requires ParseSpec.ParseArray(Chars(), JNull).Parsed?
      modifies this
      ensures Valid() && OutputKept()
      ensures var p := ParseSpec.ParseArray(old(Chars()), JNull);
        code == p.code && Chars() == p.rest && TreeOf(result) == p.item
      ensures ValueValid(result) && fresh(Fp(result))
      decreases |Chars()|, 1
    {
      var ch := Getch();
      if ch != LBRACKET {
        return EOF, Null;
      }
      var arr := new JArray();
      code := ArrayContents(arr);
      result := Arr(arr);
    }

    /** `parseArray` after the `[`, with `arr` the new, empty array. */
    method ArrayContents(arr: JArray) returns (code: int)
      requires Valid() && arr.Valid() && this !in arr.Repr && arr.Items == []
      requires ParseSpec.ArrayContents(Chars()).Parsed?
      modifies this, arr.Repr
      ensures Valid() && OutputKept() && arr.Valid() && this !in arr.Repr
      ensures fresh(arr.Repr - old(arr.Repr))
      ensures var p := ParseSpec.ArrayContents(old(Chars()));
        code == p.code && Chars() == p.rest && JArr(arr.Items) == p.item
      decreases |Chars()|, 7
    {
      var _ := Skip();
      var ch := Getch();
      if ch == RBRACKET {
        return 0;
      }
      Ungetch(ch);
      code := Elements(arr);
    }

    /** The element loop of `parseArray`, a do-while appending to `arr`
        each value parsed, for as long as a comma follows it. */
    method Elements(arr: JArray) returns (code: int)
      requires Valid() && arr.Valid() && this !in arr.Repr
      requires ParseSpec.Elements(Chars(), arr.Items).Parsed?
      modifies this, arr.Repr
      ensures Valid() && OutputKept() && arr.Valid() && this !in arr.Repr
      ensures fresh(arr.Repr - old(arr.Repr))
      ensures var p := ParseSpec.Elements(old(Chars()), old(arr.Items));
        code == p.code && Chars() == p.rest && JArr(arr.Items) == p.item
      decreases |Chars()|, 6
    {
      ghost var goal := ParseSpec.Elements(Chars(), arr.Items);
      code := 0;
      var more := true;
      while more
        invariant Valid() && OutputKept() && |Chars()| <= old(|Chars()|)
        invariant arr.Valid() && this !in arr.Repr && fresh(arr.Repr - old(arr.Repr))
        invariant more ==> ParseSpec.Elements(Chars(), arr.Items) == goal
        invariant !more ==> code == goal.code && Chars() == goal.rest && JArr(arr.Items) == goal.item
        decreases |Chars()|, more
      {
        code, more := Element(arr);
      }
    }

    /** One round of the element loop: skip, parse a value and append it,
        then see what follows. Answers whether a comma calls for another
        round, and otherwise the code of `parseArray`. */
    method Element(arr: JArray) returns (code: int, more: bool)
      requires Valid() && arr.Valid() && this !in arr.Repr
      requires ParseSpec.Elements(Chars(), arr.Items).Parsed?
      modifies this, arr.Repr
      ensures Valid() && OutputKept() && arr.Valid() && this !in arr.Repr
      ensures fresh(arr.Repr - old(arr.Repr))
      ensures var p := ParseSpec.Elements(old(Chars()), old(arr.Items));
        if more then ParseSpec.Elements(Chars(), arr.Items) == p && |Chars()| < old(|Chars()|)
        else code == p.code && Chars() == p.rest && JArr(arr.Items) == p.item
      decreases |Chars()|, 5
    {
      var _ := Skip();
      var got := ElementValue(arr);
      if got != 0 {
        return EOF, false;
      }
      code, more := AfterElement(arr.Items);
    }

    /** Parse a value and, when that succeeds, append it to `arr`. */
    method ElementValue(arr: JArray) returns (code: int)
      requires Valid() && arr.Valid() && this !in arr.Repr
      requires ParseSpec.ParseValue(Chars(), JNull).Parsed?
      modifies this, arr.Repr
      ensures Valid() && OutputKept() && arr.Valid() && this !in arr.Repr
      ensures fresh(arr.Repr - old(arr.Repr))
      ensures var v := ParseSpec.ParseValue(old(Chars()), JNull);
        && code == v.code && Chars() == v.rest
        && arr.Items == if code == 0 then old(arr.Items) + [v.item] else old(arr.Items)
      decreases |Chars()|, 4
    {
      ghost var own := arr.Own();
      var item;
      code, item := ParseValue();
      if code == 0 {
        assert arr.Own() == own && Fp(item) !! own;
        arr.Append(item);
      }
    }

    /** The end of a round of the element loop, `items` the elements so
        far: skip and read a character; a comma asks for another round,
        and anything else ends the loop, with success on `]`. */
    method AfterElement(ghost items: seq<Json>) returns (code: int, more: bool)
      requires Valid() && ParseSpec.AfterElement(Chars(), items).Parsed?
      modifies this
      ensures Valid() && OutputKept()
      ensures var p := ParseSpec.AfterElement(old(Chars()), items);
        if more then ParseSpec.Elements(Chars(), items) == p && |Chars()| < old(|Chars()|)
        else code == p.code && Chars() == p.rest && JArr(items) == p.item
    {
      var _ := Skip();
      var ch := Getch();
      if ch == COMMA {
        return 0, true;
      }
      code := if ch == RBRACKET then 0 else EOF;
      more := false;
    }

    /** `parseObject(item)`, for a null `item`: on `{` the item becomes a
        new object, and each member is stored in it as it is parsed. */
    method ParseObject() returns (code: int, result: Value)
      requires Valid()
      requires ParseSpec.ParseObject(Chars(), JNull).Parsed?
      modifies this
      ensures Valid() && OutputKept()
      ensures var p := ParseSpec.ParseObject(old(Chars()), JNull);
        code == p.code && Chars() == p.rest && TreeOf(result) == p.item
      ensures ValueValid(result) && fresh(Fp(result))
      decreases |Chars()|, 1
    {
      var ch := Getch();
      if ch != LBRACE {
        return EOF, Null;
      }
      var obj := new JObject();
      code := ObjectContents(obj);
      result := Obj(obj);
    }

    /** `parseObject` after the `{`, with `obj` the new, empty object. */
    method ObjectContents(obj: JObject) returns (code: int)
      requires Valid() && obj.Valid() && this !in obj.Repr && obj.Slots == []
      requires ParseSpec.ObjectContents(Chars()).Parsed?
      modifies this, obj.Repr
      ensures Valid() && OutputKept() && obj.Valid() && this !in obj.Repr
      ensures fresh(obj.Repr - old(obj.Repr))
      ensures var p := ParseSpec.ObjectContents(old(Chars()));
        code == p.code && Chars() == p.rest && JObj(obj.Slots) == p.item
      decreases |Chars()|, 7
    {
      var _ := Skip();
      var ch := Getch();
      if ch == RBRACE {
        return 0;
      }
      Ungetch(ch);
      code := Members(obj);
    }

    /** The member loop of `parseObject`, a do-while storing in `obj` each
        member parsed, for as long as a comma follows it. */
    method Members(obj: JObject) returns (code: int)
      requires Valid() && obj.Valid() && this !in obj.Repr
      requires ParseSpec.Members(Chars(), obj.Slots).Parsed?
      modifies this, obj.Repr
      ensures Valid() && OutputKept() && obj.Valid() && this !in obj.Repr
      ensures fresh(obj.Repr - old(obj.Repr))
      ensures var p := ParseSpec.Members(old(Chars()), old(obj.Slots));
        code == p.code && Chars() == p.rest && JObj(obj.Slots) == p.item
      decreases |Chars()|, 6
    {
      ghost var goal := ParseSpec.Members(Chars(), obj.Slots);
      code := 0;
      var more := true;
      while more
        invariant Valid() && OutputKept() && |Chars()| <= old(|Chars()|)
        invariant obj.Valid() && this !in obj.Repr && fresh(obj.Repr - old(obj.Repr))
        invariant more ==> ParseSpec.Members(Chars(), obj.Slots) == goal
        invariant !more ==> code == goal.code && Chars() == goal.rest && JObj(obj.Slots) == goal.item
        decreases |Chars()|, more
      {
        code, more := MemberRound(obj);
      }
    }

    /** One round of the member loop: skip, a string key, skip, `:`, skip,
        then the value. Answers whether a comma calls for another round,
        and otherwise the code of `parseObject`. */
    method MemberRound(obj: JObject) returns (code: int, more: bool)
      requires Valid() && obj.Valid() && this !in obj.Repr
      requires ParseSpec.Members(Chars(), obj.Slots).Parsed?
      modifies this, obj.Repr
      ensures Valid() && OutputKept() && obj.Valid() && this !in obj.Repr
      ensures fresh(obj.Repr - old(obj.Repr))
      ensures var p := ParseSpec.Members(old(Chars()), old(obj.Slots));
        if more then ParseSpec.Members(Chars(), obj.Slots) == p && |Chars()| < old(|Chars()|)
        else code == p.code && Chars() == p.rest && JObj(obj.Slots) == p.item
      decreases |Chars()|, 5
    {
      var found, key := MemberKey(obj.Slots);
      if !found {
        return EOF, false;
      }
      code, more := Member(obj, key);
    }

    /** The key half of a round of the member loop, `slots` the members so
        far: skip, a string, then the colon. Answers whether both were
        there, and the key read. */
    method MemberKey(ghost slots: seq<Slot<Json>>) returns (found: bool, key: Value)
      requires Valid() && ParseSpec.Members(Chars(), slots).Parsed?
      modifies this
      ensures Valid() && OutputKept() && NodeOf(key) == {}
      ensures var p := ParseSpec.Members(old(Chars()), slots);
        if found then ParseSpec.Member(Chars(), slots, TreeOf(key)) == p && |Chars()| < old(|Chars()|)
        else p == Parsed(EOF, Chars(), JObj(slots))
    {
      var _ := Skip();
      var got;
      got, key := ParseString();
      if got == EOF {
        return false, key;
      }
      found := AfterKey(slots, TreeOf(key));
    }

    /** Between a key `key` and its value: skip, read `:`, skip. Answers
        whether the colon was there. */
    method AfterKey(ghost slots: seq<Slot<Json>>, ghost key: Json) returns (colon: bool)
      requires Valid() && ParseSpec.AfterKey(Chars(), slots, key).Parsed?
      modifies this
      ensures Valid() && OutputKept()
      ensures var p := ParseSpec.AfterKey(old(Chars()), slots, key);
        if colon then ParseSpec.Member(Chars(), slots, key) == p && |Chars()| < old(|Chars()|)
        else p == Parsed(EOF, Chars(), JObj(slots))
    {
      var _ := Skip();
      var ch := Getch();
      if ch != COLON {
        return false;
      }
      var _ := Skip();
      colon := true;
    }

    /** The value half of a round of the member loop, `key` the key read:
        parse the value, store the member, then see what follows. */
    method Member(obj: JObject, key: Value) returns (code: int, more: bool)
      requires Valid() && obj.Valid() && this !in obj.Repr && NodeOf(key) == {}
      requires ParseSpec.Member(Chars(), obj.Slots, TreeOf(key)).Parsed?
      modifies this, obj.Repr
      ensures Valid() && OutputKept() && obj.Valid() && this !in obj.Repr
      ensures fresh(obj.Repr - old(obj.Repr))
      ensures var p := ParseSpec.Member(old(Chars()), old(obj.Slots), TreeOf(key));
        if more then ParseSpec.Members(Chars(), obj.Slots) == p && |Chars()| < old(|Chars()|)
        else code == p.code && Chars() == p.rest && JObj(obj.Slots) == p.item
      decreases |Chars()|, 5
    {
      var got := MemberValue(obj, key);
      if got != 0 {
        return EOF, false;
      }
      code, more := AfterMember(obj.Slots);
    }

    /** Parse a value and, when that succeeds, store it under `key` as
        `(*obj)[key] = value` does. */
    method MemberValue(obj: JObject, key: Value) returns (code: int)
      requires Valid() && obj.Valid() && this !in obj.Repr
      requires ParseSpec.ParseValue(Chars(), JNull).Parsed?
      requires ParseSpec.ParseValue(Chars(), JNull).code == 0 ==> key.Str? && |key.s| < 64
      modifies this, obj.Repr
      ensures Valid() && OutputKept() && obj.Valid() && this !in obj.Repr
      ensures fresh(obj.Repr - old(obj.Repr))
      ensures var v := ParseSpec.ParseValue(old(Chars()), JNull);
        && code == v.code && Chars() == v.rest
        && (code == 0 ==>
              key.Str? && |key.s| < 64
              && obj.Slots == Assign(old(obj.Slots), key.s, JNull, v.item))
        && (code != 0 ==> obj.Slots == old(obj.Slots))
      decreases |Chars()|, 4
    {
      ghost var own := obj.Own();
      var item;
      code, item := ParseValue();
      if code == 0 {
        ghost var born := Fp(item);
        assert obj.Repr == old(obj.Repr) && obj.Own() == own <= obj.Repr;
        assert born !! old(obj.Repr);
        obj.Set(key.s, item);
        assert obj.Repr == old(obj.Repr) + born + {obj.dict.list.elements};
      }
    }

    /** The end of a round of the member loop, `slots` the members so far:
        skip and read a character; a comma asks for another round, and
        anything else ends the loop, with success on `}`. */
    method AfterMember(ghost slots: seq<Slot<Json>>) returns (code: int, more: bool)
      requires Valid() && ParseSpec.AfterMember(Chars(), slots).Parsed?
      modifies this
      ensures Valid() && OutputKept()
      ensures var p := ParseSpec.AfterMember(old(Chars()), slots);
        if more then ParseSpec.Members(Chars(), slots) == p && |Chars()| < old(|Chars()|)
        else code == p.code && Chars() == p.rest && JObj(slots) == p.item
    {
      var _ := Skip();
      var ch := Getch();
      if ch == COMMA {
        return 0, true;
      }
      code := if ch == RBRACE then 0 else EOF;
      more := false;
    }
  }

  /** `Json::parse(text)`: a stream over `text` (NULL reads as empty), one
      skip and one `parseValue` into a null value, which is returned
      whatever the outcome. */
  method Parse(text: array?<Byte>) returns (output: Value)
    requires text != null ==> 0 in text[..]
    requires ParseSpec.Parse(if text == null then [] else Widen(CString(text[..]))).Some?
    ensures ValueValid(output) && fresh(Fp(output))
    ensures Some(TreeOf(output)) == ParseSpec.Parse(if text == null then [] else Widen(CString(text[..])))
  {
    var stream := new StringStream(text, null, 0);
    var _ := stream.Skip();
    var _, v := stream.ParseValue();
    output := v;
  }
}
