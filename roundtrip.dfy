/** Printing and parsing agree: the text `Json::print` produces for a tree
    of nulls, booleans, integers, strings, arrays and objects parses back,
    through `Json::parse`, into the same tree. Strings must stay within what
    the printer can name and the parser's 256-byte buffer can hold; objects
    must have live slots only, as a tombstone would be printed as a member. */
module RoundTrip {
  import opened Base
  import opened Containers
  import opened JsonTypes
  import opened ParseSpec
  import opened Encode
  import Streams

  /** A byte that survives printing and parsing: printable ASCII, or one of
      the control characters the printer names (`\b \f \n \r \t`). */
  predicate Printable(b: Byte)
  {
    32 <= b < 128 || b == 8 || b == 12 || b == 10 || b == 13 || b == 9
  }

  /** A string that prints and parses back: printable bytes, and short
      enough for the parser's 256-byte buffer with its terminator. */
  predicate GoodString(s: seq<Byte>)
  {
    |s| < 256 && forall i :: 0 <= i < |s| ==> Printable(s[i])
  }

  /** The trees the round trip holds for: no float, no invalid value, good
      strings and keys, and objects whose slots are all live (so no key
      repeats). */
  ghost predicate Portable(t: Json)
  {
    match t
    case JNull => true
    case JBool(_) => true
    case JInt(_) => true
    case JStr(s) => GoodString(s)
    case JArr(items) => forall i :: 0 <= i < |items| ==> Portable(items[i])
    case JObj(slots) =>
      && KeysOrdered(slots)
      && forall i :: 0 <= i < |slots| ==>
           slots[i].valid && GoodString(slots[i].key) && Portable(slots[i].value)
    case _ => false
  }

  /** What may follow a value so that the number parser stops in front of
      it and pushes it back intact. */
  predicate EndsNumber(r: Input)
  {
    r == [] || (r[0] != EOF && !IsDigit(r[0]) && r[0] != DOT && r[0] != 'e' as int && r[0] != 'E' as int)
  }

  lemma {:induction false} WidenAppend(a: seq<Byte>, b: seq<Byte>)
    ensures Streams.Widen(a + b) == Streams.Widen(a) + Streams.Widen(b)
  {
    if a != [] {
      assert (a + b)[0] == a[0] && (a + b)[1..] == a[1..] + b;
      WidenAppend(a[1..], b);
      calc {
        Streams.Widen(a + b);
        [Signed(a[0])] + Streams.Widen(a[1..] + b);
        [Signed(a[0])] + (Streams.Widen(a[1..]) + Streams.Widen(b));
        ([Signed(a[0])] + Streams.Widen(a[1..])) + Streams.Widen(b);
        Streams.Widen(a) + Streams.Widen(b);
      }
    } else {
      assert a + b == b;
    }
  }

  /** ASCII bytes read back as themselves. */
  lemma {:induction false} WidenAscii(a: seq<Byte>)
    requires forall i :: 0 <= i < |a| ==> a[i] < 128
    ensures Streams.Widen(a) == a
  {
    if a != [] {
      WidenAscii(a[1..]);
    }
  }

  /** The escaped form of a good string starts with the form of its first
      byte. */
  lemma EscapedHead(s: seq<Byte>, k: nat)
    requires k < |s|
    ensures Escaped(s[k..]) == EscapeChar(s[k]) + Escaped(s[k + 1..])
  {
    assert s[k..][1..] == s[k + 1..];
  }

  /** One round of the inner loop of `parseString` on a byte printed as it
      is: the byte is stored at index `k` and the loop goes on. */
  lemma PlainRound(w: Input, b: Byte, buf: seq<Byte>, k: nat, item: Json)
    requires 32 <= b < 128 && PrintedAsIs(b) && |buf| == 256 && k < 256
    requires w != [] && w[0] != EOF
    ensures StringBody(w, b, buf, k, item) == StringBody(w[1..], w[0], buf[k := b], k + 1, item)
  {
  }

  /** One round on an escape the printer wrote for byte `b`: the backslash
      and the letter are read, `b` is stored at index `k`, and the loop goes
      on. */
  lemma EscapeRound(w: Input, b: Byte, buf: seq<Byte>, k: nat, item: Json)
    requires Printable(b) && !PrintedAsIs(b) && |buf| == 256 && k < 256
    requires w != [] && w[0] != EOF
    ensures |EscapeLetter(b)| == 1 && EscapeLetter(b)[0] < 128
    ensures StringBody([EscapeLetter(b)[0]] + w, BACKSLASH, buf, k, item)
         == StringBody(w[1..], w[0], buf[k := b], k + 1, item)
  {
    var e := [EscapeLetter(b)[0]] + w;
    assert Getch(e) == (EscapeLetter(b)[0], w);
  }

  /** A byte that ends the inner loop of `parseString` when it is read
      where a character of the string could be: the closing quote, a control
      byte, or a byte from 0x80 to 0xFE, whose `char` value is negative.
      (0xFF reads as `EOF`.) */
  predicate EndsString(end: Byte)
  {
    end == '"' as int || end < 32 || 128 <= end < 255
  }

  /** A byte that ends the loop is consumed; the buffer holds the string. */
  lemma CloseRound(s: CStr, end: Byte, r: Input, buf: seq<Byte>, item: Json)
    requires EndsString(end) && |s| < 256 && |buf| == 256
    requires buf[..|s|] == s && forall j :: |s| <= j < 256 ==> buf[j] == 0
    ensures Signed(end) != EOF && StringBody(r, Signed(end), buf, |s|, item) == Parsed(0, r, JStr(s))
  {
    CStringIsPrefix(buf, |s|);
  }

  /** What is left of the printed string from byte `k` on: the escaped
      bytes and the byte `end` after them, followed by `r`. */
  function StringRest(s: seq<Byte>, k: nat, end: Byte, r: Input): Input
    requires k <= |s|
  {
    Streams.Widen(Escaped(s[k..]) + [end]) + r
  }

  /** The printed rest of a string from byte `k` on begins with what byte
      `k` is printed as. */
  lemma StringRestHead(s: seq<Byte>, k: nat, end: Byte, r: Input)
    requires k < |s|
    ensures StringRest(s, k, end, r) == Streams.Widen(EscapeChar(s[k])) + StringRest(s, k + 1, end, r)
  {
    var head := EscapeChar(s[k]);
    var tail := Escaped(s[k + 1..]) + [end];
    EscapedHead(s, k);
    Shift3(head, Escaped(s[k + 1..]), [end]);
    WidenAppend(head, tail);
    Shift3(Streams.Widen(head), Streams.Widen(tail), r);
  }

  /** A byte printed as it is reads back as itself. */
  lemma PlainPrinted(b: Byte)
    requires PrintedAsIs(b) && b < 128
    ensures Streams.Widen(EscapeChar(b)) == [b]
  {
  }

  /** A byte escaped with a letter reads back as a backslash and the
      letter. */
  lemma EscapePrinted(b: Byte)
    requires Printable(b) && !PrintedAsIs(b)
    ensures |EscapeLetter(b)| == 1
    ensures Streams.Widen(EscapeChar(b)) == [BACKSLASH, EscapeLetter(b)[0]]
  {
    WidenAscii(EscapeChar(b));
  }

  /** A byte printed as it is, seen from the loop: if the loop reads the
      rest of the string from byte `k + 1` into `p`, it reads it from byte
      `k` into `p` too. */
  lemma PlainStep(s: seq<Byte>, k: nat, end: Byte, buf: seq<Byte>, r: Input, item: Json, p: Parsed)
    requires k < |s| && s[k] < 128 && PrintedAsIs(s[k]) && |buf| == 256 && k < 256
    requires var w := StringRest(s, k + 1, end, r);
      w != [] && w[0] != EOF && StringBody(w[1..], w[0], buf[k := s[k]], k + 1, item) == p
    ensures var w := StringRest(s, k, end, r);
      w != [] && w[0] != EOF && StringBody(w[1..], w[0], buf, k, item) == p
  {
    var w := StringRest(s, k + 1, end, r);
    StringRestHead(s, k, end, r);
    PlainPrinted(s[k]);
    assert StringRest(s, k, end, r) == [s[k]] + w;
    PlainRound(w, s[k], buf, k, item);
  }

  /** The same for a byte escaped with a letter. */
  lemma EscapeStep(s: seq<Byte>, k: nat, end: Byte, buf: seq<Byte>, r: Input, item: Json, p: Parsed)
    requires k < |s| && Printable(s[k]) && !PrintedAsIs(s[k]) && |buf| == 256 && k < 256
    requires var w := StringRest(s, k + 1, end, r);
      w != [] && w[0] != EOF && StringBody(w[1..], w[0], buf[k := s[k]], k + 1, item) == p
    ensures var w := StringRest(s, k, end, r);
      w != [] && w[0] != EOF && StringBody(w[1..], w[0], buf, k, item) == p
  {
    var w := StringRest(s, k + 1, end, r);
    EscapeRest(s, k, end, r);
    var e := [EscapeLetter(s[k])[0]] + w;
    assert StringRest(s, k, end, r)[1..] == e;
    EscapeRound(w, s[k], buf, k, item);
  }

  /** The printed rest of a string from an escaped byte on. */
  lemma EscapeRest(s: seq<Byte>, k: nat, end: Byte, r: Input)
    requires k < |s| && Printable(s[k]) && !PrintedAsIs(s[k])
    ensures |EscapeLetter(s[k])| == 1
    ensures StringRest(s, k, end, r) == [BACKSLASH] + ([EscapeLetter(s[k])[0]] + StringRest(s, k + 1, end, r))
  {
    StringRestHead(s, k, end, r);
    EscapePrinted(s[k]);
  }

  /** The inner loop of `parseString` undoes the escaping of `printStringPtr`:
      started at byte `k` of a good string, with the bytes before it already
      in the buffer and zeros after, it collects the rest of the string and
      stops at `end`, consuming it and leaving `r` unread. */
  lemma {:induction false} StringBodyRoundTrip(s: CStr, k: nat, end: Byte, buf: seq<Byte>, r: Input, item: Json)
    requires GoodString(s) && EndsString(end) && k <= |s| && |buf| == 256
    requires buf[..k] == s[..k] && forall j :: k <= j < 256 ==> buf[j] == 0
    ensures var w := StringRest(s, k, end, r);
      w != [] && w[0] != EOF && StringBody(w[1..], w[0], buf, k, item) == Parsed(0, r, JStr(s))
    decreases |s| - k
  {
    if k == |s| {
      assert s[k..] == [] && buf[..k] == s;
      assert StringRest(s, k, end, r) == [Signed(end)] + r;
      CloseRound(s, end, r, buf, item);
    } else {
      assert buf[k := s[k]][..k + 1] == s[..k + 1];
      StringBodyRoundTrip(s, k + 1, end, buf[k := s[k]], r, item);
      if PrintedAsIs(s[k]) {
        PlainStep(s, k, end, buf, r, item, Parsed(0, r, JStr(s)));
      } else {
        EscapeStep(s, k, end, buf, r, item, Parsed(0, r, JStr(s)));
      }
    }
  }

  /** `parseString` ends a string at the first byte that ends the loop:
      the closing quote, but also a raw control byte or a byte from 0x80 to
      0xFE, which is consumed as if it were the quote. */
  lemma {:induction false} StringEndedBy(s: CStr, end: Byte, r: Input, item: Json)
    requires GoodString(s) && EndsString(end)
    ensures ParseString(Streams.Widen(['"' as int] + Escaped(s) + [end]) + r, item) == Parsed(0, r, JStr(s))
  {
    var body := Escaped(s) + [end];
    assert ['"' as int] + Escaped(s) + [end] == ['"' as int] + body;
    WidenAppend(['"' as int], body);
    assert s[0..] == s;
    assert Streams.Widen(['"' as int] + body) + r == [QUOTE] + StringRest(s, 0, end, r);
    StringBodyRoundTrip(s, 0, end, Cleared(), r, item);
  }

  /** `parseString` reads back what `printStringPtr` printed for a good
      string, and nothing after it. */
  lemma StringRoundTrip(s: CStr, r: Input, item: Json)
    requires GoodString(s)
    ensures ParseString(Streams.Widen(Quoted(s)) + r, item) == Parsed(0, r, JStr(s))
  {
    StringEndedBy(s, '"' as int, r, item);
  }

  /** `buf` with `x` written from index `i` on. */
  function Put(buf: seq<Byte>, i: nat, x: seq<Byte>): (r: seq<Byte>)
    requires i + |x| <= |buf|
    ensures |r| == |buf| && r[..i] == buf[..i] && r[i..i + |x|] == x && r[i + |x|..] == buf[i + |x|..]
  {
    buf[..i] + x + buf[i + |x|..]
  }

  /** The printed form of `x` from byte `k` on, followed by `tail`. */
  function Text(x: seq<Byte>, k: nat, tail: Input): Input
    requires k <= |x|
  {
    Streams.Widen(Escaped(x[k..])) + tail
  }

  /** The printed form from byte `k` on begins with what byte `k` is
      printed as. */
  lemma TextHead(x: seq<Byte>, k: nat, tail: Input)
    requires k < |x|
    ensures Text(x, k, tail) == Streams.Widen(EscapeChar(x[k])) + Text(x, k + 1, tail)
  {
    EscapedHead(x, k);
    WidenAppend(EscapeChar(x[k]), Escaped(x[k + 1..]));
    Shift3(Streams.Widen(EscapeChar(x[k])), Streams.Widen(Escaped(x[k + 1..])), tail);
  }

  /** The inner loop of `parseString`, started at byte `k` of the printed
      form of `x` with the buffer index at `o + k`, stores the rest of `x`
      from there on and reaches `tail` with the index at `o + |x|`: it ends
      as it would from that point. */
  lemma {:induction false} FillsBuffer(x: seq<Byte>, k: nat, o: nat, tail: Input, buf: seq<Byte>, item: Json, p: Parsed)
    requires (forall i :: 0 <= i < |x| ==> Printable(x[i])) && k <= |x| && o + |x| <= 256 && |buf| == 256
    requires tail != [] && tail[0] != EOF
    requires StringBody(tail[1..], tail[0], Put(buf, o + k, x[k..]), o + |x|, item) == p
    ensures var w := Text(x, k, tail);
      w != [] && w[0] != EOF && StringBody(w[1..], w[0], buf, o + k, item) == p
    decreases |x| - k
  {
    if k == |x| {
      assert x[k..] == [] && Put(buf, o + k, x[k..]) == buf;
      assert Text(x, k, tail) == tail;
    } else {
      PutShift(buf, o + k, x[k..]);
      assert x[k..][0] == x[k] && x[k..][1..] == x[k + 1..];
      var b, j, w1 := x[k], o + k, Text(x, k + 1, tail);
      FillsBuffer(x, k + 1, o, tail, buf[j := b], item, p);
      assert w1 != [] && w1[0] != EOF && StringBody(w1[1..], w1[0], buf[j := b], j + 1, item) == p;
      TextHead(x, k, tail);
      if PrintedAsIs(b) {
        PlainPrinted(b);
        PlainFill(w1, b, buf, j, item, p);
      } else {
        EscapePrinted(b);
        EscapeFill(w1, b, buf, j, item, p);
      }
    }
  }

  /** Writing `x` from index `i` is writing its first byte at `i` and the
      rest after it. */
  lemma PutShift(buf: seq<Byte>, i: nat, x: seq<Byte>)
    requires x != [] && i + |x| <= |buf|
    ensures Put(buf[i := x[0]], i + 1, x[1..]) == Put(buf, i, x)
  {
    assert buf[i := x[0]][..i + 1] == buf[..i] + [x[0]];
    assert buf[i := x[0]][i + 1 + |x[1..]|..] == buf[i + |x|..];
    assert [x[0]] + x[1..] == x;
  }

  /** A byte printed as it is, in front of `w1`: if the loop ends in `p`
      from `w1` with the byte stored, it ends in `p` from the byte. */
  lemma PlainFill(w1: Input, b: Byte, buf: seq<Byte>, k: nat, item: Json, p: Parsed)
    requires 32 <= b < 128 && PrintedAsIs(b) && |buf| == 256 && k < 256
    requires w1 != [] && w1[0] != EOF && StringBody(w1[1..], w1[0], buf[k := b], k + 1, item) == p
    ensures var w := [b] + w1; w[0] != EOF && StringBody(w[1..], w[0], buf, k, item) == p
  {
    PlainRound(w1, b, buf, k, item);
    assert ([b] + w1)[1..] == w1;
  }

  /** The same for a byte escaped with a letter. */
  lemma EscapeFill(w1: Input, b: Byte, buf: seq<Byte>, k: nat, item: Json, p: Parsed)
    requires Printable(b) && !PrintedAsIs(b) && |buf| == 256 && k < 256
    requires |EscapeLetter(b)| == 1
    requires w1 != [] && w1[0] != EOF && StringBody(w1[1..], w1[0], buf[k := b], k + 1, item) == p
    ensures var w := [BACKSLASH, EscapeLetter(b)[0]] + w1; StringBody(w[1..], w[0], buf, k, item) == p
  {
    EscapeRound(w1, b, buf, k, item);
    assert ([BACKSLASH, EscapeLetter(b)[0]] + w1)[1..] == [EscapeLetter(b)[0]] + w1;
  }

  /** An escape the parser does not know stores nothing, yet the buffer
      index moves past it, and the zero left in that slot ends the string.
      So for every printed string `s`, then a backslash and a character `c`
      outside the escape table, then any printed string `u`, the quoted text
      reads as `s` alone: `u` is lost. */
  lemma UnknownEscapeTruncates(s: CStr, c: SChar, u: seq<Byte>, r: Input, item: Json)
    requires forall i :: 0 <= i < |s| ==> Printable(s[i])
    requires forall i :: 0 <= i < |u| ==> Printable(u[i])
    requires |s| + 1 + |u| <= 256
    requires c != EOF && Unescape(c).None?
    ensures ParseString([QUOTE] + (Streams.Widen(Escaped(s)) + ([BACKSLASH, c] + (Streams.Widen(Escaped(u)) + ([QUOTE] + r)))), item)
         == Parsed(0, r, JStr(s))
  {
    var p := Parsed(0, r, JStr(s));
    var t1 := [BACKSLASH, c] + Text(u, 0, [QUOTE] + r);
    var body := Text(s, 0, t1);
    AfterUnknownEscape(s, c, u, r, item);
    assert s[0..] == s;
    assert StringBody(t1[1..], t1[0], Put(Cleared(), 0 + 0, s[0..]), 0 + |s|, item) == p;
    FillsBuffer(s, 0, 0, t1, Cleared(), item, p);
    OpenQuote(body, item, p);
    assert u[0..] == u;
    assert body == Streams.Widen(Escaped(s)) + ([BACKSLASH, c] + (Streams.Widen(Escaped(u)) + ([QUOTE] + r)));
  }

  /** `parseString` reads the opening quote and hands what follows to its
      loop: it ends as the loop does. */
  lemma OpenQuote(body: Input, item: Json, p: Parsed)
    requires body != [] && body[0] != EOF && StringBody(body[1..], body[0], Cleared(), 0, item) == p
    ensures ParseString([QUOTE] + body, item) == p
  {
    assert Getch([QUOTE] + body) == (QUOTE, body);
  }

  /** From the backslash on, with `s` stored: the unknown escape, then `u`
      and the closing quote, end the string as `s`. */
  lemma AfterUnknownEscape(s: CStr, c: SChar, u: seq<Byte>, r: Input, item: Json)
    requires forall i :: 0 <= i < |u| ==> Printable(u[i])
    requires |s| + 1 + |u| <= 256
    requires c != EOF && Unescape(c).None?
    ensures var t1 := [BACKSLASH, c] + Text(u, 0, [QUOTE] + r);
      StringBody(t1[1..], t1[0], Put(Cleared(), 0, s), |s|, item) == Parsed(0, r, JStr(s))
  {
    var p := Parsed(0, r, JStr(s));
    var b1 := Put(Cleared(), 0, s);
    var tq := [QUOTE] + r;
    var t2 := Text(u, 0, tq);
    var t1 := [BACKSLASH, c] + t2;
    AfterSkippedSlot(s, u, r, item);
    assert t1[0] == BACKSLASH && t1[1..] == [c] + t2;
    SkippedEscape(c, t2, b1, |s|, item);
  }

  /** With `s` stored and the slot after it skipped, `u` and the closing
      quote end the string as `s`. */
  lemma AfterSkippedSlot(s: CStr, u: seq<Byte>, r: Input, item: Json)
    requires forall i :: 0 <= i < |u| ==> Printable(u[i])
    requires |s| + 1 + |u| <= 256
    ensures var t2 := Text(u, 0, [QUOTE] + r);
      t2 != [] && t2[0] != EOF
      && StringBody(t2[1..], t2[0], Put(Cleared(), 0, s), |s| + 1, item) == Parsed(0, r, JStr(s))
  {
    var p := Parsed(0, r, JStr(s));
    var b1 := Put(Cleared(), 0, s);
    var tq := [QUOTE] + r;
    ZeroAfter(s, u, r, item);
    assert u[0..] == u && tq[1..] == r && tq[0] == QUOTE;
    assert StringBody(tq[1..], tq[0], Put(b1, |s| + 1 + 0, u[0..]), |s| + 1 + |u|, item) == p;
    FillsBuffer(u, 0, |s| + 1, tq, b1, item, p);
  }

  /** With `s` stored from index 0 and `u` from index `|s| + 1`, the zero
      between them ends the string when the quote comes. */
  lemma ZeroAfter(s: CStr, u: seq<Byte>, r: Input, item: Json)
    requires |s| + 1 + |u| <= 256
    ensures var b := Put(Put(Cleared(), 0, s), |s| + 1, u);
      StringBody(r, QUOTE, b, |s| + 1 + |u|, item) == Parsed(0, r, JStr(s))
  {
    var b1 := Put(Cleared(), 0, s);
    var b := Put(b1, |s| + 1, u);
    assert b1[..|s|] == s && b1[|s|..][0] == 0;
    assert b[..|s| + 1] == b1[..|s| + 1];
    assert b[..|s|] == s && b[|s|] == 0;
    CStringIsPrefix(b, |s|);
  }

  /** A backslash and a character outside the escape table: nothing is
      stored, and the index moves on. */
  lemma SkippedEscape(c: SChar, w: Input, buf: seq<Byte>, k: nat, item: Json)
    requires c != EOF && Unescape(c).None? && |buf| == 256
    requires w != [] && w[0] != EOF
    ensures StringBody([c] + w, BACKSLASH, buf, k, item) == StringBody(w[1..], w[0], buf, k + 1, item)
  {
    assert Getch([c] + w) == (c, w);
  }

  /** `parseString` fails when the input ends inside the string: after the
      printed form of any `s`, a last byte printed as it is, and nothing
      more. */
  lemma UnclosedStringFails(s: seq<Byte>, b: Byte, item: Json)
    requires (forall i :: 0 <= i < |s| ==> Printable(s[i])) && |s| < 256
    requires PrintedAsIs(b) && b < 128
    ensures ParseString([QUOTE] + (Streams.Widen(Escaped(s)) + [b]), item) == Parsed(EOF, [], item)
  {
    var p := Parsed(EOF, [], item);
    var body := Text(s, 0, [b]);
    InputEndsInLoop(b, Put(Cleared(), 0 + 0, s[0..]), 0 + |s|, item);
    assert [b][1..] == [] && [b][0] == b;
    FillsBuffer(s, 0, 0, [b], Cleared(), item, p);
    OpenQuote(body, item, p);
    assert s[0..] == s && body == Streams.Widen(Escaped(s)) + [b];
  }

  /** It fails too when the input ends right after a backslash. */
  lemma BackslashAtEndFails(s: seq<Byte>, item: Json)
    requires (forall i :: 0 <= i < |s| ==> Printable(s[i])) && |s| <= 256
    ensures ParseString([QUOTE] + (Streams.Widen(Escaped(s)) + [BACKSLASH]), item) == Parsed(EOF, [], item)
  {
    var p := Parsed(EOF, [], item);
    var body := Text(s, 0, [BACKSLASH]);
    InputEndsInLoop(BACKSLASH, Put(Cleared(), 0 + 0, s[0..]), 0 + |s|, item);
    assert [BACKSLASH][1..] == [] && [BACKSLASH][0] == BACKSLASH;
    FillsBuffer(s, 0, 0, [BACKSLASH], Cleared(), item, p);
    OpenQuote(body, item, p);
    assert s[0..] == s && body == Streams.Widen(Escaped(s)) + [BACKSLASH];
  }

  /** The input running out in the loop, after a byte of the string or
      after a backslash, fails the string. */
  lemma InputEndsInLoop(c: SChar, buf: seq<Byte>, k: nat, item: Json)
    requires |buf| == 256
    requires c == BACKSLASH || (32 <= c && c != QUOTE && k < 256)
    ensures StringBody([], c, buf, k, item) == Parsed(EOF, [], item)
  {
  }

  /** The number a run of decimal digits denotes, most significant first. */
  function DigitsValue(ds: seq<Byte>): int
  {
    if ds == [] then 0 else 10 * DigitsValue(ds[..|ds| - 1]) + (ds[|ds| - 1] - '0' as int)
  }

  /** `Digits` writes `n` in decimal. */
  lemma {:induction false} DigitsDenote(n: nat)
    ensures DigitsValue(Digits(n)) == n
  {
    if n >= 10 {
      DigitsDenote(n / 10);
      var ds := Digits(n);
      assert ds[..|ds| - 1] == Digits(n / 10);
    }
  }

  /** Two integers that differ by a multiple of 2^32 wrap to the same
      32-bit `int`. */
  lemma Wrap32Congruent(a: int, b: int, q: int)
    requires a - b == q * 0x1_0000_0000
    ensures Wrap32(a) == Wrap32(b)
  {
    var m := 0x1_0000_0000;
    var x := b + 0x8000_0000;
    assert a + 0x8000_0000 == x + q * m;
    assert (x + q * m) % m == x % m by {
      assert x == (x / m) * m + x % m;
      assert x + q * m == (x / m + q) * m + x % m;
    }
  }

  /** The accumulator of the digit loop may wrap at every step or only at
      the end: the result is the same. */
  lemma ShiftWraps(x: int, c: SChar)
    ensures Wrap32(Shift(Wrap32(x), c)) == Wrap32(Shift(x, c))
  {
    var q := (Wrap32(x) - x) / 0x1_0000_0000;
    assert Wrap32(x) - x == q * 0x1_0000_0000;
    Wrap32Congruent(Shift(Wrap32(x), c), Shift(x, c), 10 * q);
  }

  lemma SignWraps(x: int, sign: int)
    requires sign == 1 || sign == -1
    ensures Wrap32(WithSign(Wrap32(x), sign)) == Wrap32(WithSign(x, sign))
  {
    var q := (Wrap32(x) - x) / 0x1_0000_0000;
    assert Wrap32(x) - x == q * 0x1_0000_0000;
    Wrap32Congruent(WithSign(Wrap32(x), sign), WithSign(x, sign), sign * q);
  }

  predicate AllDigits(ds: seq<Byte>)
  {
    forall i :: 0 <= i < |ds| ==> '0' as int <= ds[i] <= '9' as int
  }

  /** The digit loop of `parseNumber`, started at digit `k` of a run of
      digits followed by something that is not a digit, reads the rest of
      the run into the (wrapped) value of the whole run and stops at the
      character after it. */
  lemma {:induction false} IntDigitsRoundTrip(ds: seq<Byte>, k: nat, r: Input)
    requires k < |ds| && AllDigits(ds) && EndsNumber(r)
    ensures IntDigits(ds[k + 1..] + r, ds[k], Wrap32(DigitsValue(ds[..k])))
         == (Wrap32(DigitsValue(ds)), Getch(r).0, Getch(r).1)
    decreases |ds| - k
  {
    assert ds[..k + 1][..k] == ds[..k];
    ShiftWraps(DigitsValue(ds[..k]), ds[k]);
    assert Wrap32(Shift(Wrap32(DigitsValue(ds[..k])), ds[k])) == Wrap32(DigitsValue(ds[..k + 1]));
    if k + 1 < |ds| {
      assert ds[k + 1..] + r == [ds[k + 1]] + (ds[k + 2..] + r);
      IntDigitsRoundTrip(ds, k + 1, r);
    } else {
      assert ds[k + 1..] + r == r && ds[..k + 1] == ds;
    }
  }

  /** The digits of `n`, followed by a non-digit, read back as `n` wrapped
      to 32 bits. */
  lemma DigitsRun(n: nat, r: Input)
    requires EndsNumber(r)
    ensures var ds := Digits(n);
      IntPart(ds[1..] + r, ds[0]) == (Wrap32(n), Getch(r).0, Getch(r).1)
  {
    var ds := Digits(n);
    assert ds[..0] == [] && DigitsValue(ds[..0]) == 0;
    IntDigitsRoundTrip(ds, 0, r);
    DigitsDenote(n);
    assert IntPart(ds[1..] + r, ds[0]) == IntDigits(ds[1..] + r, ds[0], 0);
  }

  /** After its sign, the digits of `n` followed by a non-digit read back
      as `n` with that sign, wrapped to 32 bits, and the non-digit is pushed
      back. */
  lemma DigitsNumber(n: nat, sign: int, r: Input)
    requires sign == 1 || sign == -1
    requires EndsNumber(r)
    ensures var ds := Digits(n);
      Number(ds[1..] + r, ds[0], sign) == Parsed(0, r, JInt(Wrap32(WithSign(n, sign))))
  {
    var ds := Digits(n);
    DigitsRun(n, r);
    SignWraps(n, sign);
    UngetchUndoesGetch(r);
  }

  /** The digit loop of `parseNumber`, started at digit `k` of a run of
      digits, stops at whatever follows the run, whatever the value it has
      accumulated: it answers that character and the input after it. */
  lemma {:induction false} DigitsStop(ds: seq<Byte>, k: nat, r: Input, acc: Int32)
    requires k < |ds| && AllDigits(ds) && (r == [] || !IsDigit(r[0]))
    ensures IntDigits(ds[k + 1..] + r, ds[k], acc).1 == Getch(r).0
    ensures IntDigits(ds[k + 1..] + r, ds[k], acc).2 == Getch(r).1
    decreases |ds| - k
  {
    if k + 1 < |ds| {
      assert ds[k + 1..] + r == [ds[k + 1]] + (ds[k + 2..] + r);
      DigitsStop(ds, k + 1, r, Wrap32(Shift(acc, ds[k])));
    } else {
      assert ds[k + 1..] + r == r;
    }
  }

  /** A run of digits makes a float exactly when a `.`, `e` or `E` follows
      it, and an `int` otherwise. */
  lemma NumberKind(ds: seq<Byte>, r: Input, sign: int)
    requires |ds| > 0 && AllDigits(ds) && (r == [] || !IsDigit(r[0]))
    ensures Number(ds[1..] + r, ds[0], sign).item.JFloat?
        <==> r != [] && (r[0] == DOT || r[0] == 'e' as int || r[0] == 'E' as int)
    ensures Number(ds[1..] + r, ds[0], sign).item.JInt?
        <==> !(r != [] && (r[0] == DOT || r[0] == 'e' as int || r[0] == 'E' as int))
  {
    DigitsStop(ds, 0, r, 0);
  }

  /** `parseNumber` reads back the decimal text `print(int)` wrote for a
      non-negative `x`. */
  lemma NonNegativeRoundTrip(x: Int32, r: Input, item: Json)
    requires x >= 0 && EndsNumber(r)
    ensures ParseNumber(Streams.Widen(Itoa(x)) + r, item) == Parsed(0, r, JInt(x))
  {
    var ds := Digits(x);
    var tail := ds[1..] + r;
    NonNegativeText(x, r);
    PositiveStart(ds[0], tail, item);
    DigitsNumber(x, 1, r);
    assert WithSign(x, 1) == x;
  }

  /** The text of a non-negative `x` is its digits, read back as themselves. */
  lemma NonNegativeText(x: Int32, r: Input)
    requires x >= 0
    ensures var ds := Digits(x); Streams.Widen(Itoa(x)) + r == [ds[0]] + (ds[1..] + r)
  {
    var ds := Digits(x);
    WidenAscii(ds);
    assert Itoa(x) == ds;
  }

  /** A first character other than `EOF` and `-`: the number is read with
      sign 1 from that character. */
  lemma PositiveStart(c: SChar, rest: Input, item: Json)
    requires c != EOF && c != MINUS
    ensures ParseNumber([c] + rest, item) == Number(rest, c, 1)
  {
    assert Getch([c] + rest) == (c, rest);
  }

  /** `parseNumber` reads back the text `print(int)` wrote for a negative
      `x`, -2^31 included: its magnitude wraps to -2^31, and negating that
      wraps back. */
  lemma NegativeRoundTrip(x: Int32, r: Input, item: Json)
    requires x < 0 && EndsNumber(r)
    ensures ParseNumber(Streams.Widen(Itoa(x)) + r, item) == Parsed(0, r, JInt(x))
  {
    var n: nat := -(x as int);
    var ds := Digits(n);
    var tail := ds[1..] + r;
    WidenAscii(['-' as int] + ds);
    assert Itoa(x) == ['-' as int] + ds;
    assert Streams.Widen(Itoa(x)) + r == [MINUS] + ([ds[0]] + tail);
    NegativeStart(ds[0], tail, item);
    DigitsNumber(n, -1, r);
    assert WithSign(n, -1) == x;
  }

  /** A minus sign and a character other than `EOF`: the number is read
      with sign -1 from that character. */
  lemma NegativeStart(c: SChar, rest: Input, item: Json)
    requires c != EOF
    ensures ParseNumber([MINUS] + ([c] + rest), item) == Number(rest, c, -1)
  {
    var cs := [MINUS] + ([c] + rest);
    assert Getch(cs) == (MINUS, [c] + rest);
    assert Getch([c] + rest) == (c, rest);
  }

  /** A character `skip()` stops at is pushed back: nothing is consumed. */
  lemma SkipStops(cs: Input)
    requires cs != [] && 32 < cs[0]
    ensures Skip(cs) == Step(0, cs)
  {
  }

  /** `null`, `true` and `false` read back as the word they were printed
      as. */
  lemma LiteralRoundTrip(word: seq<Byte>, value: Json, r: Input, item: Json)
    requires forall i :: 0 <= i < |word| ==> 0 < word[i] < 128
    ensures ParseLiteral(Streams.Widen(word) + r, item, word, value) == Parsed(0, r, value)
  {
    var cs := Streams.Widen(word) + r;
    WidenAscii(word);
    ReadBytesStops(cs, |word|, |word|);
    assert ReadBytes(cs, |word|).0 == word;
    assert cs[|word|..] == r;
  }

  /** Every printed portable tree starts with a byte `skip()` stops at and
      that is not `]`. */
  lemma FirstByte(t: Json, pf: FloatPrinter)
    requires Portable(t)
    ensures Render(t, pf) != [] && 32 < Render(t, pf)[0] < 128 && Render(t, pf)[0] != ']' as int
  {
    if t.JInt? {
      var n: nat := if t.i < 0 then -(t.i as int) else t.i;
      assert Digits(n)[0] == (if t.i < 0 then Itoa(t.i)[1] else Itoa(t.i)[0]);
    }
  }

  /** The first character of a printed portable tree, followed by `r`. */
  lemma Leading(t: Json, pf: FloatPrinter, r: Input)
    requires Portable(t)
    ensures var cs := Streams.Widen(Render(t, pf)) + r;
      && cs != [] && cs[0] == Render(t, pf)[0] && 32 < cs[0] && cs[0] != RBRACKET
      && Skip(cs) == Step(0, cs)
      && Getch(cs) == (cs[0], cs[1..]) && Ungetch(cs[1..], cs[0]) == cs
  {
    FirstByte(t, pf);
    var cs := Streams.Widen(Render(t, pf)) + r;
    SkipStops(cs);
  }

  /** `parseValue` reads back the text `Json::print` printed for a portable
      tree, leaving `r` unread, for any `r` in front of which a number
      stops. */
  lemma {:induction false} ValueRoundTrip(t: Json, pf: FloatPrinter, r: Input)
    requires Portable(t) && EndsNumber(r)
    ensures ParseValue(Streams.Widen(Render(t, pf)) + r, JNull) == Parsed(0, r, t)
    decreases t, 3
  {
    var cs := Streams.Widen(Render(t, pf)) + r;
    Leading(t, pf, r);
    DispatchRoundTrip(t, pf, r);
  }

  /** The parser `parseValue` picks by the first character reads back the
      printed tree. */
  lemma {:induction false} DispatchRoundTrip(t: Json, pf: FloatPrinter, r: Input)
    requires Portable(t) && EndsNumber(r)
    ensures Render(t, pf) != [] && 32 < Render(t, pf)[0] < 128
    ensures Dispatch(Streams.Widen(Render(t, pf)) + r, Render(t, pf)[0], JNull) == Parsed(0, r, t)
    decreases t, 2
  {
    FirstByte(t, pf);
    var cs := Streams.Widen(Render(t, pf)) + r;
    match t
    case JNull =>
      LiteralRoundTrip(NULL_TEXT, JNull, r, JNull);
    case JBool(b) =>
      if b {
        LiteralRoundTrip(TRUE_TEXT, t, r, JNull);
      } else {
        LiteralRoundTrip(FALSE_TEXT, t, r, JNull);
      }
    case JInt(x) =>
      if x >= 0 {
        NonNegativeRoundTrip(x, r, JNull);
      } else {
        NegativeRoundTrip(x, r, JNull);
      }
    case JStr(s) =>
      StringRoundTrip(s, r, JNull);
    case JArr(_) =>
      ArrayRoundTrip(t, pf, r);
    case JObj(_) =>
      ObjectRoundTrip(t, pf, r);
  }

  /** One round of the element loop of `parseArray`: a value that starts
      at once, then what follows it. */
  lemma ElementsRound(cs: Input, items: seq<Json>, v: Json, after: Input, p: Parsed)
    requires Skip(cs) == Step(0, cs)
    requires ParseValue(cs, JNull) == Parsed(0, after, v)
    requires AfterElement(after, items + [v]) == p
    ensures Elements(cs, items) == p
  {
  }

  /** A comma after an element calls for another round. */
  lemma AfterElementComma(cs: Input, items: seq<Json>, p: Parsed)
    requires Elements(cs, items) == p
    ensures AfterElement([COMMA] + cs, items) == p
  {
    assert Skip([COMMA] + cs) == Step(0, [COMMA] + cs);
  }

  /** `]` after an element ends the array. */
  lemma AfterElementClose(r: Input, items: seq<Json>)
    ensures AfterElement([RBRACKET] + r, items) == Parsed(0, r, JArr(items))
  {
    assert Skip([RBRACKET] + r) == Step(0, [RBRACKET] + r);
  }

  /** `parseArray` rejects a trailing comma: `[`, a printed portable tree,
      `,` and `]` fail, with the one element read and the `]` pushed
      back. */
  lemma TrailingCommaFails(t: Json, pf: FloatPrinter, r: Input)
    requires Portable(t)
    ensures ParseArray([LBRACKET] + (Streams.Widen(Render(t, pf)) + ([COMMA, RBRACKET] + r)), JNull)
         == Parsed(EOF, [RBRACKET] + r, JArr([t]))
  {
    var rest := [COMMA, RBRACKET] + r;
    var cs := Streams.Widen(Render(t, pf)) + rest;
    Leading(t, pf, rest);
    ValueRoundTrip(t, pf, rest);
    CloseWhereElementIsDue(r, [t]);
    assert [] + [t] == [t];
    assert ArrayContents(cs) == Elements(cs, []) == AfterElement(rest, [t]);
    assert Getch([LBRACKET] + cs) == (LBRACKET, cs);
  }

  /** `parseArray` fails when the input ends before `]`: after `[` and a
      printed portable tree, with or without a comma. */
  lemma UnclosedArrayFails(t: Json, pf: FloatPrinter, tail: Input)
    requires Portable(t) && (tail == [] || tail == [COMMA])
    ensures ParseArray([LBRACKET] + (Streams.Widen(Render(t, pf)) + tail), JNull) == Parsed(EOF, [], JArr([t]))
  {
    var cs := Streams.Widen(Render(t, pf)) + tail;
    Leading(t, pf, tail);
    ValueRoundTrip(t, pf, tail);
    ArrayRunsOut([t]);
    assert [] + [t] == [t];
    assert ArrayContents(cs) == Elements(cs, []) == AfterElement(tail, [t]);
    assert Getch([LBRACKET] + cs) == (LBRACKET, cs);
  }

  /** One round of the member loop of `parseObject`, up to the key: a
      string that starts at once, then what follows it. */
  lemma MembersRound(cs: Input, slots: seq<Slot<Json>>, key: Key, rest: Input, p: Parsed)
    requires Skip(cs) == Step(0, cs)
    requires ParseString(cs, JNull) == Parsed(0, rest, JStr(key))
    requires AfterKey(rest, slots, JStr(key)) == p
    ensures Members(cs, slots) == p
  {
  }

  /** The colon after a key, then a value that starts at once. */
  lemma AfterKeyRound(vs: Input, slots: seq<Slot<Json>>, key: Json, p: Parsed)
    requires Skip(vs) == Step(0, vs)
    requires Member(vs, slots, key) == p
    ensures AfterKey([COLON] + vs, slots, key) == p
  {
    assert Skip([COLON] + vs) == Step(0, [COLON] + vs);
  }

  /** The value of a member, stored under its key, then what follows. */
  lemma MemberRound(cs: Input, slots: seq<Slot<Json>>, key: Key, v: Json, after: Input, p: Parsed)
    requires ParseValue(cs, JNull) == Parsed(0, after, v)
    requires AfterMember(after, Assign(slots, key, JNull, v)) == p
    ensures Member(cs, slots, JStr(key)) == p
  {
  }

  /** A comma after a member calls for another round. */
  lemma AfterMemberComma(cs: Input, slots: seq<Slot<Json>>, p: Parsed)
    requires Members(cs, slots) == p
    ensures AfterMember([COMMA] + cs, slots) == p
  {
    assert Skip([COMMA] + cs) == Step(0, [COMMA] + cs);
  }

  /** `}` after a member ends the object. */
  lemma AfterMemberClose(r: Input, slots: seq<Slot<Json>>)
    ensures AfterMember([RBRACE] + r, slots) == Parsed(0, r, JObj(slots))
  {
    assert Skip([RBRACE] + r) == Step(0, [RBRACE] + r);
  }

  /** The elements of an array from element `k` on, as `printArray` prints
      them. */
  function ItemsFrom(items: seq<Json>, k: nat, pf: FloatPrinter): seq<Byte>
    requires k <= |items|
    decreases |items| - k
  {
    if k == |items| then [] else ItemText(items, k, pf) + ItemsFrom(items, k + 1, pf)
  }

  /** What follows element `k` of a printed array: a comma unless it is the
      last, the later elements and `]`. */
  function AfterItem(items: seq<Json>, k: nat, pf: FloatPrinter): seq<Byte>
    requires k < |items|
  {
    (if k < |items| - 1 then [',' as int] else []) + ItemsFrom(items, k + 1, pf) + [']' as int]
  }

  lemma {:induction false} ItemsSplit(items: seq<Json>, k: nat, pf: FloatPrinter)
    requires k <= |items|
    ensures RenderItems(items, k, pf) + ItemsFrom(items, k, pf) == RenderItems(items, |items|, pf)
    decreases |items| - k
  {
    if k < |items| {
      ItemsSplit(items, k + 1, pf);
    }
  }

  lemma ItemsFromHead(items: seq<Json>, k: nat, pf: FloatPrinter)
    requires k < |items|
    ensures ItemsFrom(items, k, pf) + [']' as int] == Render(items[k], pf) + AfterItem(items, k, pf)
  {
  }

  /** `parseArray` reads back a printed array of portable trees. */
  lemma {:induction false} ArrayRoundTrip(t: Json, pf: FloatPrinter, r: Input)
    requires t.JArr? && Portable(t)
    ensures ParseArray(Streams.Widen(Render(t, pf)) + r, JNull) == Parsed(0, r, t)
    decreases t, 1
  {
    var items := t.items;
    var body := RenderItems(items, |items|, pf) + [']' as int];
    assert Render(t, pf) == ['[' as int] + body;
    WidenAppend(['[' as int], body);
    var cs := Streams.Widen(body) + r;
    assert Streams.Widen(Render(t, pf)) + r == [LBRACKET] + cs;
    ArrayContentsRoundTrip(items, pf, r);
    assert ParseArray([LBRACKET] + cs, JNull) == ArrayContents(cs);
  }

  /** What follows `[`: `]` at once for the empty array, the element loop
      otherwise. */
  lemma {:induction false} ArrayContentsRoundTrip(items: seq<Json>, pf: FloatPrinter, r: Input)
    requires forall i :: 0 <= i < |items| ==> Portable(items[i])
    ensures ArrayContents(Streams.Widen(RenderItems(items, |items|, pf) + [']' as int]) + r) == Parsed(0, r, JArr(items))
    decreases items, |items|, 2
  {
    var cs := Streams.Widen(RenderItems(items, |items|, pf) + [']' as int]) + r;
    if items == [] {
      assert cs == [RBRACKET] + r;
    } else {
      ItemsSplit(items, 0, pf);
      assert RenderItems(items, 0, pf) == [];
      assert RenderItems(items, |items|, pf) == ItemsFrom(items, 0, pf);
      var after := Streams.Widen(AfterItem(items, 0, pf)) + r;
      ItemsRest(items, 0, pf, r);
      Leading(items[0], pf, after);
      assert items[..0] == [];
      ElementsRoundTrip(items, 0, pf, r);
    }
  }

  /** The element loop of `parseArray`, entered at element `k` with the
      earlier elements parsed, reads the rest of the printed array. */
  lemma {:induction false} ElementsRoundTrip(items: seq<Json>, k: nat, pf: FloatPrinter, r: Input)
    requires k < |items| && forall i :: 0 <= i < |items| ==> Portable(items[i])
    ensures Elements(Streams.Widen(ItemsFrom(items, k, pf) + [']' as int]) + r, items[..k]) == Parsed(0, r, JArr(items))
    decreases items, |items| - k, 1
  {
    var after := Streams.Widen(AfterItem(items, k, pf)) + r;
    ItemsRest(items, k, pf, r);
    Leading(items[k], pf, after);
    AfterItemStarts(items, k, pf, r);
    ValueRoundTrip(items[k], pf, after);
    var cs := Streams.Widen(Render(items[k], pf)) + after;
    assert items[..k] + [items[k]] == items[..k + 1];
    AfterElementRoundTrip(items, k, pf, r);
    ElementsRound(cs, items[..k], items[k], after, Parsed(0, r, JArr(items)));
  }

  /** The printed rest of an array from element `k` on, as the parser
      meets it. */
  lemma ItemsRest(items: seq<Json>, k: nat, pf: FloatPrinter, r: Input)
    requires k < |items|
    ensures Streams.Widen(ItemsFrom(items, k, pf) + [']' as int]) + r
         == Streams.Widen(Render(items[k], pf)) + (Streams.Widen(AfterItem(items, k, pf)) + r)
  {
    ItemsFromHead(items, k, pf);
    WidenAppend(Render(items[k], pf), AfterItem(items, k, pf));
  }

  /** What follows an element starts with `,` or `]`. */
  lemma AfterItemStarts(items: seq<Json>, k: nat, pf: FloatPrinter, r: Input)
    requires k < |items|
    ensures var after := Streams.Widen(AfterItem(items, k, pf)) + r;
      && after != [] && EndsNumber(after) && Skip(after) == Step(0, after)
      && after[0] == (if k < |items| - 1 then COMMA else RBRACKET)
  {
    var a := AfterItem(items, k, pf);
    assert a[0] == (if k < |items| - 1 then ',' as int else ']' as int);
    SkipStops(Streams.Widen(a) + r);
  }

  /** After element `k`, a comma leads to the next element, and `]` after
      the last one ends the array. */
  lemma {:induction false} AfterElementRoundTrip(items: seq<Json>, k: nat, pf: FloatPrinter, r: Input)
    requires k < |items| && forall i :: 0 <= i < |items| ==> Portable(items[i])
    ensures AfterElement(Streams.Widen(AfterItem(items, k, pf)) + r, items[..k + 1]) == Parsed(0, r, JArr(items))
    decreases items, |items| - k, 0
  {
    var a := AfterItem(items, k, pf);
    AfterItemStarts(items, k, pf, r);
    if k < |items| - 1 {
      var rest := ItemsFrom(items, k + 1, pf) + [']' as int];
      assert a == [',' as int] + rest;
      WidenAppend([',' as int], rest);
      var cs := Streams.Widen(rest) + r;
      assert Streams.Widen(a) + r == [COMMA] + cs;
      ElementsRoundTrip(items, k + 1, pf, r);
      AfterElementComma(cs, items[..k + 1], Parsed(0, r, JArr(items)));
    } else {
      assert a == [']' as int];
      assert items[..k + 1] == items;
      AfterElementClose(r, items);
    }
  }

  /** Storing a key no live slot holds, in a map without tombstones,
      appends a slot: the order in which `parseObject` stores members is the
      order of the slots. */
  lemma AssignAppends<T>(s: seq<Slot<T>>, key: Key, blank: T, v: T)
    requires forall j :: 0 <= j < |s| ==> s[j].valid && s[j].key != key
    ensures Assign(s, key, blank, v) == s + [Slot(true, key, v)]
  {
    assert Find(s, key).None?;
    assert FirstTombstone(s).None?;
  }

  /** The members of object `t` from slot `k` on, as `printObject` prints
      them. */
  function SlotsFrom(t: Json, k: nat, pf: FloatPrinter): seq<Byte>
    requires t.JObj? && k <= |t.slots|
    decreases |t.slots| - k
  {
    if k == |t.slots| then [] else SlotText(t, k, pf) + SlotsFrom(t, k + 1, pf)
  }

  /** What follows the value of member `k` of a printed object. */
  function Next(t: Json, k: nat, pf: FloatPrinter): seq<Byte>
    requires t.JObj? && k < |t.slots|
  {
    SlotsFrom(t, k + 1, pf) + ['}' as int]
  }

  /** A printed object from the key of member `k` on. */
  function Entry(t: Json, k: nat, pf: FloatPrinter): seq<Byte>
    requires t.JObj? && k < |t.slots|
  {
    Quoted(t.slots[k].key) + ([':' as int] + (Render(t.slots[k].value, pf) + Next(t, k, pf)))
  }

  lemma {:induction false} SlotsSplit(t: Json, k: nat, pf: FloatPrinter)
    requires t.JObj? && k <= |t.slots|
    ensures RenderSlots(t, k, pf) + SlotsFrom(t, k, pf) == RenderSlots(t, |t.slots|, pf)
    decreases |t.slots| - k
  {
    if k < |t.slots| {
      SlotsSplit(t, k + 1, pf);
      var a, b, c := RenderSlots(t, k, pf), SlotText(t, k, pf), SlotsFrom(t, k + 1, pf);
      assert RenderSlots(t, k + 1, pf) == a + b;
      assert SlotsFrom(t, k, pf) == b + c;
      Shift3(a, b, c);
    }
  }

  /** Member `k` of a portable object is printed with a comma before it
      unless it is the first. */
  lemma SlotsFromHead(t: Json, k: nat, pf: FloatPrinter)
    requires t.JObj? && Portable(t) && k < |t.slots|
    ensures SlotsFrom(t, k, pf) + ['}' as int] == (if k > 0 then [',' as int] else []) + Entry(t, k, pf)
  {
    var kv := t.slots[k];
    assert Portable(kv.value);
    var pre: seq<Byte> := if k > 0 then [',' as int] else [];
    var q, d, rest := Quoted(kv.key), Render(kv.value, pf), SlotsFrom(t, k + 1, pf);
    assert SlotText(t, k, pf) == pre + q + [':' as int] + d;
    Regroup(pre, q, [':' as int], d, rest, ['}' as int]);
  }

  /** What follows the value of a member starts with `,` or `}`. */
  lemma NextStarts(t: Json, k: nat, pf: FloatPrinter, r: Input)
    requires t.JObj? && Portable(t) && k < |t.slots|
    ensures var after := Streams.Widen(Next(t, k, pf)) + r;
      && after != [] && EndsNumber(after) && Skip(after) == Step(0, after)
      && after[0] == (if k < |t.slots| - 1 then COMMA else RBRACE)
  {
    if k < |t.slots| - 1 {
      SlotsFromHead(t, k + 1, pf);
    }
    SkipStops(Streams.Widen(Next(t, k, pf)) + r);
  }

  /** `parseObject` reads back a printed object whose slots are all live. */
  lemma {:induction false} ObjectRoundTrip(t: Json, pf: FloatPrinter, r: Input)
    requires t.JObj? && Portable(t)
    ensures ParseObject(Streams.Widen(Render(t, pf)) + r, JNull) == Parsed(0, r, t)
    decreases t, 1
  {
    var cs := Streams.Widen(RenderSlots(t, |t.slots|, pf) + ['}' as int]) + r;
    ObjectText(t, pf, r);
    ObjectContentsRoundTrip(t, pf, r);
    OpenBrace(cs);
  }

  /** A printed object is `{`, its members, then `}`. */
  lemma ObjectText(t: Json, pf: FloatPrinter, r: Input)
    requires t.JObj?
    ensures Streams.Widen(Render(t, pf)) + r
         == [LBRACE] + (Streams.Widen(RenderSlots(t, |t.slots|, pf) + ['}' as int]) + r)
  {
    var body := RenderSlots(t, |t.slots|, pf) + ['}' as int];
    assert Render(t, pf) == ['{' as int] + body;
    WidenAppend(['{' as int], body);
  }

  /** `parseObject` consumes the opening brace and goes on with the members. */
  lemma OpenBrace(cs: Input)
    ensures ParseObject([LBRACE] + cs, JNull) == ObjectContents(cs)
  {
    assert ([LBRACE] + cs)[1..] == cs;
  }

  /** What follows `{`: `}` at once for the empty object, the member loop
      otherwise. */
  lemma {:induction false} ObjectContentsRoundTrip(t: Json, pf: FloatPrinter, r: Input)
    requires t.JObj? && Portable(t)
    ensures ObjectContents(Streams.Widen(RenderSlots(t, |t.slots|, pf) + ['}' as int]) + r) == Parsed(0, r, t)
    decreases t, 0, |t.slots| + 1
  {
    var cs := Streams.Widen(RenderSlots(t, |t.slots|, pf) + ['}' as int]) + r;
    if t.slots == [] {
      assert cs == [RBRACE] + r;
    } else {
      SlotsSplit(t, 0, pf);
      assert RenderSlots(t, 0, pf) == [];
      assert RenderSlots(t, |t.slots|, pf) == SlotsFrom(t, 0, pf);
      SlotsFromHead(t, 0, pf);
      var e := Entry(t, 0, pf);
      assert [] + e == e;
      assert SlotsFrom(t, 0, pf) + ['}' as int] == e;
      assert cs == Streams.Widen(e) + r;
      assert e[0] == '"' as int;
      SkipStops(cs);
      assert t.slots[..0] == [];
      MembersRoundTrip(t, 0, pf, r);
    }
  }

  /** The member loop of `parseObject`, entered at member `k` with the
      earlier members stored, reads the rest of the printed object. */
  lemma {:induction false} MembersRoundTrip(t: Json, k: nat, pf: FloatPrinter, r: Input)
    requires t.JObj? && Portable(t) && k < |t.slots|
    ensures Members(Streams.Widen(Entry(t, k, pf)) + r, t.slots[..k]) == Parsed(0, r, t)
    decreases t, 0, |t.slots| - k, 4
  {
    var key := t.slots[k].key;
    var tail := [':' as int] + (Render(t.slots[k].value, pf) + Next(t, k, pf));
    WidenAppend(Quoted(key), tail);
    var cs := Streams.Widen(Entry(t, k, pf)) + r;
    var rest := Streams.Widen(tail) + r;
    assert cs == Streams.Widen(Quoted(key)) + rest;
    WidenAscii(['"' as int]);
    assert Quoted(key)[0] == '"' as int;
    SkipStops(cs);
    StringRoundTrip(key, rest, JNull);
    AfterKeyRoundTrip(t, k, pf, r);
    MembersRound(cs, t.slots[..k], key, rest, Parsed(0, r, t));
  }

  /** The colon after a key, then the member's value. */
  lemma {:induction false} AfterKeyRoundTrip(t: Json, k: nat, pf: FloatPrinter, r: Input)
    requires t.JObj? && Portable(t) && k < |t.slots|
    ensures AfterKey(Streams.Widen([':' as int] + (Render(t.slots[k].value, pf) + Next(t, k, pf))) + r,
                     t.slots[..k], JStr(t.slots[k].key)) == Parsed(0, r, t)
    decreases t, 0, |t.slots| - k, 3
  {
    var v := t.slots[k].value;
    var after := Streams.Widen(Next(t, k, pf)) + r;
    var vs := Streams.Widen(Render(v, pf)) + after;
    ColonThenValue(v, Next(t, k, pf), pf, r);
    Leading(v, pf, after);
    MemberRoundTrip(t, k, pf, r);
    AfterKeyRound(vs, t.slots[..k], JStr(t.slots[k].key), Parsed(0, r, t));
  }

  /** The text after a key: a colon, the value, then what follows it. */
  lemma ColonThenValue(v: Json, next: seq<Byte>, pf: FloatPrinter, r: Input)
    ensures Streams.Widen([':' as int] + (Render(v, pf) + next)) + r
         == [COLON] + (Streams.Widen(Render(v, pf)) + (Streams.Widen(next) + r))
  {
    WidenAppend([':' as int], Render(v, pf) + next);
    WidenAppend(Render(v, pf), next);
  }

  /** The value of member `k`, stored under its key. */
  lemma {:induction false} MemberRoundTrip(t: Json, k: nat, pf: FloatPrinter, r: Input)
    requires t.JObj? && Portable(t) && k < |t.slots|
    ensures Member(Streams.Widen(Render(t.slots[k].value, pf)) + (Streams.Widen(Next(t, k, pf)) + r),
                   t.slots[..k], JStr(t.slots[k].key)) == Parsed(0, r, t)
    decreases t, 0, |t.slots| - k, 2
  {
    var slot := t.slots[k];
    var after := Streams.Widen(Next(t, k, pf)) + r;
    NextStarts(t, k, pf, r);
    ValueRoundTrip(slot.value, pf, after);
    assert forall j :: 0 <= j < k ==> t.slots[..k][j] == t.slots[j];
    AssignAppends(t.slots[..k], slot.key, JNull, slot.value);
    assert t.slots[..k] + [slot] == t.slots[..k + 1];
    AfterMemberRoundTrip(t, k, pf, r);
    MemberRound(Streams.Widen(Render(slot.value, pf)) + after, t.slots[..k], slot.key, slot.value, after, Parsed(0, r, t));
  }

  /** After member `k`, a comma leads to the next member, and `}` after the
      last one ends the object. */
  lemma {:induction false} AfterMemberRoundTrip(t: Json, k: nat, pf: FloatPrinter, r: Input)
    requires t.JObj? && Portable(t) && k < |t.slots|
    ensures AfterMember(Streams.Widen(Next(t, k, pf)) + r, t.slots[..k + 1]) == Parsed(0, r, t)
    decreases t, 0, |t.slots| - k, 1
  {
    if k < |t.slots| - 1 {
      var cs := Streams.Widen(Entry(t, k + 1, pf)) + r;
      CommaThenEntry(t, k, pf, r);
      MembersRoundTrip(t, k + 1, pf, r);
      AfterMemberComma(cs, t.slots[..k + 1], Parsed(0, r, t));
    } else {
      assert Next(t, k, pf) == ['}' as int];
      assert t.slots[..k + 1] == t.slots;
      AfterMemberClose(r, t.slots);
    }
  }

  /** What follows a member other than the last: a comma, then the next
      member's entry. */
  lemma CommaThenEntry(t: Json, k: nat, pf: FloatPrinter, r: Input)
    requires t.JObj? && Portable(t) && k < |t.slots| - 1
    ensures Streams.Widen(Next(t, k, pf)) + r == [COMMA] + (Streams.Widen(Entry(t, k + 1, pf)) + r)
  {
    SlotsFromHead(t, k + 1, pf);
    WidenAppend([',' as int], Entry(t, k + 1, pf));
  }

  /** Printing a portable tree with `Json::print` and parsing the text with
      `Json::parse` gives the tree back. */
  lemma PrintThenParse(t: Json, pf: FloatPrinter)
    requires Portable(t)
    ensures Parse(Streams.Widen(Render(t, pf))) == Some(t)
  {
    var cs := Streams.Widen(Render(t, pf)) + [];
    assert cs == Streams.Widen(Render(t, pf));
    Leading(t, pf, []);
    ValueRoundTrip(t, pf, []);
  }
}
