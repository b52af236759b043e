/**
 * The request decoder of the server: a recursive-descent reader for the Redis
 * serialization protocol (RESP2) over the bytes a client sends.
 *
 * The functions ending in `At` are the model: each decodes one construct that
 * starts at a position of the input and returns the value with the position
 * just after it. The class `Reader` is the source's reader, a cursor that
 * advances as bytes are consumed, and each of its methods is proved to do
 * what the corresponding function says.
 */
module Resp {
  import opened Ascii
  import Decimal

  const SIMPLE_STRING: byte := 43  // '+'
  const BULK_STRING: byte := 36    // '$'
  const INTEGER: byte := 58        // ':' (declared, but the decoder has no case for it)
  const ARRAY: byte := 42          // '*'
  const ERROR: byte := 45          // '-'

  /**
   * A decoded value is one flat record whatever its type: `str` is filled for
   * simple strings and errors, `bulk` for bulk strings, `elements` for arrays, and
   * the other fields stay empty.
   */
  datatype Value = Value(typ: byte, str: Bytes, bulk: Bytes, elements: seq<Value>)

  function BulkValue(b: Bytes): Value
  {
    Value(BULK_STRING, [], b, [])
  }

  function ArrayValue(vs: seq<Value>): Value
  {
    Value(ARRAY, [], [], vs)
  }

  function BulkValues(bs: seq<Bytes>): (vs: seq<Value>)
    ensures |vs| == |bs|
  {
    if bs == [] then [] else [BulkValue(bs[0])] + BulkValues(bs[1..])
  }

  lemma {:induction false} BulkValuesAt(bs: seq<Bytes>, i: nat)
    requires i < |bs|
    ensures BulkValues(bs)[i] == BulkValue(bs[i])
  {
    if i > 0 {
      BulkValuesAt(bs[1..], i - 1);
    }
  }

  /** A request as a client sends it: an array of bulk strings. */
  function Command(args: seq<Bytes>): Value
  {
    ArrayValue(BulkValues(args))
  }

  /**
   * Why decoding stopped. Every one of them ends the session. The last two are
   * runtime panics in the source (a slice or an allocation with a negative
   * length), which stop the whole server process rather than one session.
   */
  datatype DecodeError =
    | EndOfInput                  // no type byte, or no '\n' before the input ends
    | Truncated                   // fewer bytes left than a bulk string's body needs
    | UnsupportedType(tag: byte)  // a type byte other than '*', '$', '+' and '-'
    | InvalidInteger              // a length line that is not a 64-bit base-10 integer
    | ShortLine                   // a line of one byte, from which two cannot be dropped
    | NegativeLength              // an array or bulk-string length below zero

  datatype Result<+T> = Ok(value: T) | Err(error: DecodeError)

  function WithoutPosition<T>(r: Result<(T, nat)>): Result<T>
  {
    match r
    case Ok((v, _)) => Ok(v)
    case Err(e) => Err(e)
  }

  /**
   * bufio's `ReadBytes('\n')` for a line that starts at start, scanned from
   * pos on: everything up to and including the first LF is consumed, and the
   * line is that text less its last two bytes, which are taken to be "\r\n"
   * without being looked at.
   */
  function LineFrom(input: Bytes, start: nat, pos: nat): (r: Result<(Bytes, nat)>)
    requires start <= pos <= |input|
    ensures r.Ok? ==> start + 2 <= r.value.1 <= |input|
    decreases |input| - pos
  {
    if pos == |input| then Err(EndOfInput)
    else if input[pos] == LF then
      if pos == start then Err(ShortLine) else Ok((input[start..pos - 1], pos + 1))
    else LineFrom(input, start, pos + 1)
  }

  /** `ReadLine`: one line, starting at pos. */
  function LineAt(input: Bytes, pos: nat): (r: Result<(Bytes, nat)>)
    requires pos <= |input|
    ensures r.Ok? ==> pos + 2 <= r.value.1 <= |input|
  {
    LineFrom(input, pos, pos)
  }

  lemma {:induction false} LineFromSpec(input: Bytes, start: nat, pos: nat)
    requires start <= pos <= |input| && LF !in input[start..pos]
    ensures var r := LineFrom(input, start, pos);
      && (r.Ok? ==> var (line, next) := r.value;
            && input[next - 1] == LF && LF !in input[start..next - 1]
            && line == input[start..next - 2])
      && (r == Err(EndOfInput) <==> LF !in input[start..])
      && (r == Err(ShortLine) <==> start < |input| && input[start] == LF)
      && (r.Ok? || r == Err(EndOfInput) || r == Err(ShortLine))
    decreases |input| - pos
  {
    if pos == |input| {
      assert input[start..] == input[start..pos];
    } else if input[pos] == LF {
      assert input[start..][pos - start] == LF;
      if start < pos {
        assert input[start..pos][0] == input[start];
      }
    } else {
      assert input[start..pos + 1] == input[start..pos] + [input[pos]];
      LineFromSpec(input, start, pos + 1);
    }
  }

  /**
   * A line ends at the first LF; it is the text before that LF less one more
   * byte. With no LF left the input has ended, and an LF at pos is a line too
   * short to drop two bytes from; nothing else fails.
   */
  lemma LineAtSpec(input: Bytes, pos: nat)
    requires pos <= |input|
    ensures var r := LineAt(input, pos);
      && (r.Ok? ==> var (line, next) := r.value;
            && input[next - 1] == LF && LF !in input[pos..next - 1]
            && line == input[pos..next - 2])
      && (r == Err(EndOfInput) <==> LF !in input[pos..])
      && (r == Err(ShortLine) <==> pos < |input| && input[pos] == LF)
      && (r.Ok? || r == Err(EndOfInput) || r == Err(ShortLine))
  {
    LineFromSpec(input, pos, pos);
  }

  /** `ReadInteger`: a line holding a base-10 integer that fits in 64 signed bits. */
  function IntegerAt(input: Bytes, pos: nat): (r: Result<(int, nat)>)
    requires pos <= |input|
    ensures r.Ok? ==> pos < r.value.1 <= |input|
    ensures r.Ok? ==> Decimal.MinInt64 <= r.value.0 <= Decimal.MaxInt64
  {
    match LineAt(input, pos)
    case Err(e) => Err(e)
    case Ok((line, next)) =>
      match Decimal.Parse(line)
      case None => Err(InvalidInteger)
      case Some(n) => Ok((n, next))
  }

  /** `ReadValue`: one type byte, then the construct it announces. */
  function ValueAt(input: Bytes, pos: nat): (r: Result<(Value, nat)>)
    requires pos <= |input|
    ensures r.Ok? ==> pos < r.value.1 <= |input|
    ensures r.Ok? ==> r.value.0.typ == input[pos]
    ensures r.Ok? ==> input[pos] in {ARRAY, BULK_STRING, SIMPLE_STRING, ERROR}
    decreases |input| - pos, 2, 0
  {
    if pos == |input| then Err(EndOfInput) else TypedAt(input[pos], input, pos + 1)
  }

  /**
   * The switch on the type byte: only the four tags '*', '$', '+' and '-' are
   * decoded, and the value keeps its tag.
   */
  function TypedAt(typ: byte, input: Bytes, pos: nat): (r: Result<(Value, nat)>)
    requires pos <= |input|
    ensures r.Ok? ==> pos < r.value.1 <= |input| && r.value.0.typ == typ
    ensures r.Ok? ==> typ in {ARRAY, BULK_STRING, SIMPLE_STRING, ERROR}
    decreases |input| - pos, 1, 0
  {
    if typ == ARRAY then ArrayAt(input, pos)
    else if typ == BULK_STRING then BulkAt(input, pos)
    else if typ == SIMPLE_STRING || typ == ERROR then TextAt(typ, input, pos)
    else Err(UnsupportedType(typ))
  }

  /** `parseArray`: a length line, then that many values, one after the other. */
  function ArrayAt(input: Bytes, pos: nat): (r: Result<(Value, nat)>)
    requires pos <= |input|
    ensures r.Ok? ==> pos < r.value.1 <= |input| && r.value.0.typ == ARRAY
    decreases |input| - pos, 0, 0
  {
    match IntegerAt(input, pos)
    case Err(e) => Err(e)
    case Ok((n, next)) =>
      if n < 0 then Err(NegativeLength)
      else
        match ElementsAt(input, next, n)
        case Err(e) => Err(e)
        case Ok((vs, end)) => Ok((ArrayValue(vs), end))
  }

  /** count values decoded one after another from pos; the first failure is the result. */
  function ElementsAt(input: Bytes, pos: nat, count: nat): (r: Result<(seq<Value>, nat)>)
    requires pos <= |input|
    ensures r.Ok? ==> |r.value.0| == count && pos <= r.value.1 <= |input|
    decreases |input| - pos, 3, count
  {
    if count == 0 then Ok(([], pos))
    else
      match ValueAt(input, pos)
      case Err(e) => Err(e)
      case Ok((v, next)) => Prepend([v], ElementsAt(input, next, count - 1))
  }

  function Prepend(vs: seq<Value>, r: Result<(seq<Value>, nat)>): Result<(seq<Value>, nat)>
  {
    match r
    case Err(e) => Err(e)
    case Ok((rest, end)) => Ok((vs + rest, end))
  }

  lemma PrependNothing(r: Result<(seq<Value>, nat)>)
    ensures Prepend([], r) == r
  {
    if r.Ok? {
      assert [] + r.value.0 == r.value.0;
    }
  }

  /** One step of ElementsAt: the first value, then the remaining count - 1. */
  lemma ElementsStep(input: Bytes, pos: nat, count: nat)
    requires pos <= |input| && count > 0
    ensures ValueAt(input, pos).Err? ==> ElementsAt(input, pos, count) == Err(ValueAt(input, pos).error)
    ensures ValueAt(input, pos).Ok? ==>
              ElementsAt(input, pos, count)
              == Prepend([ValueAt(input, pos).value.0], ElementsAt(input, ValueAt(input, pos).value.1, count - 1))
  {
  }

  lemma PrependFailure(vs: seq<Value>, e: DecodeError)
    ensures Prepend(vs, Err(e)) == Err(e)
  {
  }

  lemma PrependTwice(vs: seq<Value>, v: Value, r: Result<(seq<Value>, nat)>)
    ensures Prepend(vs, Prepend([v], r)) == Prepend(vs + [v], r)
  {
    if r.Ok? {
      assert vs + ([v] + r.value.0) == vs + [v] + r.value.0;
    }
  }

  /**
   * The largest bulk length for which length + 2 does not wrap around to a
   * negative 64-bit integer; past it the allocation fails whatever follows.
   */
  const MaxBulk: int := Decimal.MaxInt64 - 2

  /**
   * `parseBulkString`: a length line, then a buffer of length + 2 bytes is
   * filled, and the payload is its first length bytes. The steps fail in the
   * source's order: the allocation (length + 2, a 64-bit sum, below zero),
   * the read (too few bytes left), then the slice (length below zero).
   */
  function BulkAt(input: Bytes, pos: nat): (r: Result<(Value, nat)>)
    requires pos <= |input|
    ensures r.Ok? ==> pos < r.value.1 <= |input| && r.value.0.typ == BULK_STRING
  {
    match IntegerAt(input, pos)
    case Err(e) => Err(e)
    case Ok((n, next)) =>
      var size := Decimal.AddInt64(n, 2);
      if size < 0 then Err(NegativeLength)
      else if |input| - next < size then Err(Truncated)
      else if n < 0 then Err(NegativeLength)
      else Ok((BulkValue(input[next..next + n]), next + size))
  }

  /** `parseSimpleString` and `parseError`: the text of one line, under the given tag. */
  function TextAt(typ: byte, input: Bytes, pos: nat): (r: Result<(Value, nat)>)
    requires pos <= |input|
    ensures r.Ok? ==> pos < r.value.1 <= |input| && r.value.0.typ == typ
  {
    match LineAt(input, pos)
    case Err(e) => Err(e)
    case Ok((line, next)) => Ok((Value(typ, line, [], []), next))
  }

  /** `$<byte length>\r\n`: the line that announces a bulk string of n bytes. */
  function BulkHeader(n: nat): Bytes
  {
    [BULK_STRING] + Decimal.Format(n) + CRLF
  }

  /** The bulk-string frame, which the server also writes for its payload replies. */
  function EncodeBulk(b: Bytes): Bytes
  {
    BulkHeader(|b|) + b + CRLF
  }

  function EncodeBulks(bs: seq<Bytes>): Bytes
  {
    if bs == [] then [] else EncodeBulk(bs[0]) + EncodeBulks(bs[1..])
  }

  /** A request as a client writes it: `*<count>\r\n`, then one bulk-string frame per argument. */
  function EncodeCommand(args: seq<Bytes>): Bytes
  {
    [ARRAY] + Decimal.Format(|args|) + CRLF + EncodeBulks(args)
  }

  lemma SliceOfSlice(s: Bytes, a: nat, b: nat, c: nat, d: nat)
    requires a <= b <= |s| && c <= d <= b - a
    ensures s[a..b][c..d] == s[a + c..a + d]
  {
    forall i | 0 <= i < d - c ensures s[a..b][c..d][i] == s[a + c..a + d][i] {
      assert s[a..b][c..d][i] == s[a..b][c + i] == s[a + c + i];
    }
  }

  /** A slice that is t followed by u splits into a slice for t and a slice for u. */
  lemma SplitSlice(s: Bytes, a: nat, b: nat, t: Bytes, u: Bytes)
    requires a <= b <= |s| && s[a..b] == t + u
    ensures a + |t| <= b && s[a..a + |t|] == t && s[a + |t|..b] == u
  {
    SliceOfSlice(s, a, b, 0, |t|);
    SliceOfSlice(s, a, b, |t|, b - a);
  }

  /** The scan finds the LF at j when no LF lies between pos and j. */
  lemma {:induction false} LineFromFirst(input: Bytes, start: nat, pos: nat, j: nat)
    requires start <= pos <= j < |input| && start < j && input[j] == LF && LF !in input[pos..j]
    ensures LineFrom(input, start, pos) == Ok((input[start..j - 1], j + 1))
    decreases j - pos
  {
    if pos < j {
      assert input[pos] == input[pos..j][0];
      assert input[pos + 1..j] == input[pos..j][1..];
      LineFromFirst(input, start, pos + 1, j);
    }
  }

  /** A line written as its text and "\r\n" reads back as that text, when the text holds no LF. */
  lemma LineOf(input: Bytes, pos: nat, text: Bytes)
    requires LF !in text
    requires pos + |text| + 2 <= |input| && input[pos..pos + |text| + 2] == text + CRLF
    ensures LineAt(input, pos) == Ok((text, pos + |text| + 2))
  {
    var j := pos + |text| + 1;
    var w := input[pos..j + 1];
    assert w[..|text| + 1] == text + [CR];
    assert w[..|text|] == text;
    SliceOfSlice(input, pos, j + 1, 0, |text| + 1);
    SliceOfSlice(input, pos, j + 1, 0, |text|);
    assert input[j] == w[|text| + 1] == LF;
    LineFromFirst(input, pos, pos, j);
  }

  /** A length line written with `%d` reads back as its number and ends just after its "\r\n". */
  lemma IntegerLine(input: Bytes, pos: nat, n: int)
    requires Decimal.MinInt64 <= n <= Decimal.MaxInt64
    requires pos + |Decimal.Format(n)| + 2 <= |input|
    requires input[pos..pos + |Decimal.Format(n)| + 2] == Decimal.Format(n) + CRLF
    ensures IntegerAt(input, pos) == Ok((n, pos + |Decimal.Format(n)| + 2))
  {
    LineOf(input, pos, Decimal.Format(n));
    Decimal.ParseFormat(n);
  }

  /**
   * A bulk string decodes to exactly the bytes its length announces, whatever
   * they are (CR and LF included), and the two bytes after them are consumed
   * without being looked at.
   */
  lemma BulkFrame(input: Bytes, pos: nat, b: Bytes)
    requires |b| <= MaxBulk
    requires pos + |BulkHeader(|b|)| + |b| + 2 <= |input|
    requires input[pos..pos + |BulkHeader(|b|)| + |b|] == BulkHeader(|b|) + b
    ensures ValueAt(input, pos) == Ok((BulkValue(b), pos + |EncodeBulk(b)|))
  {
    var f := Decimal.Format(|b|);
    HeaderParts(input, pos, b);
    IntegerLine(input, pos + 1, |b|);
    BulkBody(input, pos + 1, b, pos + 1 + |f| + 2);
  }

  /** The pieces of a bulk-string frame found at pos: its tag, its length line and its payload. */
  lemma HeaderParts(input: Bytes, pos: nat, b: Bytes)
    requires pos + |BulkHeader(|b|)| + |b| + 2 <= |input|
    requires input[pos..pos + |BulkHeader(|b|)| + |b|] == BulkHeader(|b|) + b
    ensures var f := Decimal.Format(|b|);
      && |EncodeBulk(b)| == 1 + |f| + 2 + |b| + 2
      && pos + 1 + |f| + 2 + |b| + 2 <= |input|
      && input[pos] == BULK_STRING
      && input[pos + 1..pos + 1 + |f| + 2] == f + CRLF
      && input[pos + 1 + |f| + 2..pos + 1 + |f| + 2 + |b|] == b
  {
    FramePartsAt(input, pos, BULK_STRING, Decimal.Format(|b|), b);
  }

  /** The pieces of a tagged frame found at pos: the tag, the line and what follows the line. */
  lemma FramePartsAt(input: Bytes, pos: nat, tag: byte, line: Bytes, body: Bytes)
    requires pos + 1 + |line| + 2 + |body| <= |input|
    requires input[pos..pos + 1 + |line| + 2 + |body|] == [tag] + line + CRLF + body
    ensures input[pos] == tag
    ensures input[pos + 1..pos + 1 + |line| + 2] == line + CRLF
    ensures input[pos + 1 + |line| + 2..pos + 1 + |line| + 2 + |body|] == body
  {
    var w := input[pos..pos + 1 + |line| + 2 + |body|];
    assert input[pos] == w[0];
    SliceOfSlice(input, pos, pos + 1 + |line| + 2 + |body|, 1, 1 + |line| + 2);
    assert w[1..1 + |line| + 2] == line + CRLF;
    SliceOfSlice(input, pos, pos + 1 + |line| + 2 + |body|, 1 + |line| + 2, 1 + |line| + 2 + |body|);
    assert w[1 + |line| + 2..1 + |line| + 2 + |body|] == body;
  }

  /** What parseBulkString returns once its length line has read as the length of b, and b follows. */
  lemma BulkBody(input: Bytes, pos: nat, b: Bytes, next: nat)
    requires |b| <= MaxBulk
    requires pos <= |input| && IntegerAt(input, pos) == Ok((|b|, next)) && next + |b| + 2 <= |input|
    requires input[next..next + |b|] == b
    requires 0 < pos && input[pos - 1] == BULK_STRING
    ensures ValueAt(input, pos - 1) == Ok((BulkValue(b), next + |b| + 2))
  {
    assert BulkAt(input, pos) == Ok((BulkValue(b), next + |b| + 2));
  }

  /** What parseArray returns once its length line has read as n >= 0 and n values follow. */
  lemma ArrayBody(input: Bytes, pos: nat, n: nat, next: nat, vs: seq<Value>, end: nat)
    requires pos <= |input| && IntegerAt(input, pos) == Ok((n, next))
    requires next <= |input| && ElementsAt(input, next, n) == Ok((vs, end))
    requires 0 < pos && input[pos - 1] == ARRAY
    ensures ValueAt(input, pos - 1) == Ok((ArrayValue(vs), end))
  {
    assert ArrayAt(input, pos) == Ok((ArrayValue(vs), end));
  }

  /** vs decode one after the other from pos of the input, the last one ending at end. */
  predicate Consecutive(input: Bytes, pos: nat, vs: seq<Value>, end: nat)
    decreases |vs|
  {
    && pos <= |input|
    && (if vs == [] then end == pos
        else
          && ValueAt(input, pos).Ok? && ValueAt(input, pos).value.0 == vs[0]
          && Consecutive(input, ValueAt(input, pos).value.1, vs[1..], end))
  }

  /** Values that decode one after the other make up the elements of an array. */
  lemma {:induction false} ElementsOfConsecutive(input: Bytes, pos: nat, vs: seq<Value>, end: nat)
    requires Consecutive(input, pos, vs, end)
    ensures ElementsAt(input, pos, |vs|) == Ok((vs, end))
    decreases |vs|
  {
    if vs != [] {
      ElementsOfConsecutive(input, ValueAt(input, pos).value.1, vs[1..], end);
      assert [vs[0]] + vs[1..] == vs;
    }
  }

  /** One more value decoded in front of a run of consecutive values. */
  lemma ConsecutiveCons(input: Bytes, pos: nat, vs: seq<Value>, next: nat, end: nat)
    requires pos <= |input| && vs != []
    requires ValueAt(input, pos) == Ok((vs[0], next))
    requires Consecutive(input, next, vs[1..], end)
    ensures Consecutive(input, pos, vs, end)
  {
  }

  lemma BulksCons(bs: seq<Bytes>)
    requires bs != []
    ensures |EncodeBulks(bs)| == |EncodeBulk(bs[0])| + |EncodeBulks(bs[1..])|
    ensures BulkValues(bs)[0] == BulkValue(bs[0]) && BulkValues(bs)[1..] == BulkValues(bs[1..])
  {
  }

  /** Each of bs decodes as a bulk string in turn, from pos on, the last one ending at end. */
  predicate DecodesBulks(input: Bytes, pos: nat, bs: seq<Bytes>, end: nat)
    decreases |bs|
  {
    && pos <= |input|
    && (if bs == [] then end == pos
        else
          && ValueAt(input, pos) == Ok((BulkValue(bs[0]), pos + |EncodeBulk(bs[0])|))
          && DecodesBulks(input, pos + |EncodeBulk(bs[0])|, bs[1..], end))
  }

  /** The frames of bs laid out from pos to end, as EncodeBulks writes them, decode one by one. */
  lemma {:induction false} FramedBulks(input: Bytes, pos: nat, bs: seq<Bytes>, end: nat)
    requires forall i | 0 <= i < |bs| :: |bs[i]| <= MaxBulk
    requires end == pos + |EncodeBulks(bs)| <= |input|
    requires input[pos..end] == EncodeBulks(bs)
    ensures DecodesBulks(input, pos, bs, end)
    decreases |bs|
  {
    if bs != [] {
      BulksSplit(input, pos, bs, end);
      FramedBulks(input, pos + |EncodeBulk(bs[0])|, bs[1..], end);
      FirstBulk(input, pos, bs, end);
    }
  }

  /** The frames of bs from pos to end: the first one, then the frames of the others. */
  lemma BulksSplit(input: Bytes, pos: nat, bs: seq<Bytes>, end: nat)
    requires bs != [] && end == pos + |EncodeBulks(bs)| <= |input|
    requires input[pos..end] == EncodeBulks(bs)
    ensures end == pos + |EncodeBulk(bs[0])| + |EncodeBulks(bs[1..])|
    ensures input[pos..pos + |EncodeBulk(bs[0])|] == EncodeBulk(bs[0])
    ensures input[pos + |EncodeBulk(bs[0])|..end] == EncodeBulks(bs[1..])
  {
    var e, tail := EncodeBulk(bs[0]), EncodeBulks(bs[1..]);
    assert EncodeBulks(bs) == e + tail;
    SplitSlice(input, pos, end, e, tail);
  }

  /** The frame of the first of bs, found at pos, decodes in front of the frames of the others. */
  lemma FirstBulk(input: Bytes, pos: nat, bs: seq<Bytes>, end: nat)
    requires bs != [] && |bs[0]| <= MaxBulk
    requires pos + |EncodeBulk(bs[0])| <= |input|
    requires input[pos..pos + |EncodeBulk(bs[0])|] == EncodeBulk(bs[0])
    requires DecodesBulks(input, pos + |EncodeBulk(bs[0])|, bs[1..], end)
    ensures DecodesBulks(input, pos, bs, end)
  {
    FrameOf(input, pos, bs[0]);
  }

  /** Bulk strings that decode one frame after the other are consecutive values. */
  lemma {:induction false} ConsecutiveBulks(input: Bytes, pos: nat, bs: seq<Bytes>, end: nat)
    requires DecodesBulks(input, pos, bs, end)
    ensures Consecutive(input, pos, BulkValues(bs), end)
    decreases |bs|
  {
    if bs != [] {
      var next := pos + |EncodeBulk(bs[0])|;
      ConsecutiveBulks(input, next, bs[1..], end);
      BulksCons(bs);
      ConsecutiveCons(input, pos, BulkValues(bs), next, end);
    }
  }

  /** A whole bulk-string frame found at pos decodes to its payload. */
  lemma FrameOf(input: Bytes, pos: nat, b: Bytes)
    requires |b| <= MaxBulk
    requires pos + |EncodeBulk(b)| <= |input| && input[pos..pos + |EncodeBulk(b)|] == EncodeBulk(b)
    ensures ValueAt(input, pos) == Ok((BulkValue(b), pos + |EncodeBulk(b)|))
  {
    SplitSlice(input, pos, pos + |EncodeBulk(b)|, BulkHeader(|b|) + b, CRLF);
    BulkFrame(input, pos, b);
  }

  /** A bulk-string frame decodes to its payload and is consumed exactly, whatever follows it. */
  lemma BulkRoundTrip(b: Bytes, rest: Bytes)
    requires |b| <= MaxBulk
    ensures ValueAt(EncodeBulk(b) + rest, 0) == Ok((BulkValue(b), |EncodeBulk(b)|))
  {
    var input := EncodeBulk(b) + rest;
    assert input[..|BulkHeader(|b|)| + |b|] == BulkHeader(|b|) + b;
    BulkFrame(input, 0, b);
  }

  /**
   * A request written as an array of bulk strings decodes back to that request
   * and is consumed exactly, whatever follows it; no arguments give an empty array.
   */
  lemma CommandRoundTrip(args: seq<Bytes>, rest: Bytes)
    requires |args| <= Decimal.MaxInt64
    requires forall i | 0 <= i < |args| :: |args[i]| <= MaxBulk
    ensures ValueAt(EncodeCommand(args) + rest, 0) == Ok((Command(args), |EncodeCommand(args)|))
  {
    CommandParts(args, rest);
    CommandFrame(EncodeCommand(args) + rest, args);
  }

  /** The pieces of a request written at the start of the input: its tag, its count line and its frames. */
  lemma CommandParts(args: seq<Bytes>, rest: Bytes)
    ensures var input, f, body := EncodeCommand(args) + rest, Decimal.Format(|args|), EncodeBulks(args);
      && |EncodeCommand(args)| == 1 + |f| + 2 + |body| <= |input|
      && input[0] == ARRAY
      && input[1..1 + |f| + 2] == f + CRLF
      && input[1 + |f| + 2..1 + |f| + 2 + |body|] == body
  {
    FrameParts(ARRAY, Decimal.Format(|args|), EncodeBulks(args), rest);
  }

  /** The pieces of a tagged frame followed by more bytes: the tag, the line and what follows the line. */
  lemma FrameParts(tag: byte, line: Bytes, body: Bytes, rest: Bytes)
    ensures var input := [tag] + line + CRLF + body + rest;
      && 1 + |line| + 2 + |body| <= |input|
      && input[0] == tag
      && input[1..1 + |line| + 2] == line + CRLF
      && input[1 + |line| + 2..1 + |line| + 2 + |body|] == body
  {
    var input := [tag] + line + CRLF + body + rest;
    assert input[1..1 + |line| + 2] == line + CRLF;
    assert input[1 + |line| + 2..1 + |line| + 2 + |body|] == body;
  }

  /** A request found at the start of the input decodes to its arguments. */
  lemma CommandFrame(input: Bytes, args: seq<Bytes>)
    requires |args| <= Decimal.MaxInt64
    requires forall i | 0 <= i < |args| :: |args[i]| <= MaxBulk
    requires var f, body := Decimal.Format(|args|), EncodeBulks(args);
      && 1 + |f| + 2 + |body| <= |input|
      && input[0] == ARRAY
      && input[1..1 + |f| + 2] == f + CRLF
      && input[1 + |f| + 2..1 + |f| + 2 + |body|] == body
    ensures ValueAt(input, 0) == Ok((Command(args), 1 + |Decimal.Format(|args|)| + 2 + |EncodeBulks(args)|))
  {
    var start := 1 + |Decimal.Format(|args|)| + 2;
    var end := start + |EncodeBulks(args)|;
    IntegerLine(input, 1, |args|);
    FramedBulks(input, start, args, end);
    ConsecutiveBulks(input, start, args, end);
    ElementsOfConsecutive(input, start, BulkValues(args), end);
    ArrayBody(input, 1, |args|, start, BulkValues(args), end);
  }

  /**
   * A simple string or an error, `+<text>\r\n` or `-<text>\r\n`, decodes to its
   * text when the text holds no LF (a CR inside it is kept).
   */
  lemma TextRoundTrip(typ: byte, text: Bytes, rest: Bytes)
    requires typ == SIMPLE_STRING || typ == ERROR
    requires LF !in text
    ensures ValueAt([typ] + text + CRLF + rest, 0) == Ok((Value(typ, text, [], []), |text| + 3))
  {
    var input := [typ] + text + CRLF + rest;
    assert input[1..|text| + 3] == text + CRLF;
    LineOf(input, 1, text);
  }

  /** Only '*', '$', '+' and '-' start a value; any other type byte, ':' among them, is refused. */
  lemma UnsupportedTag(input: Bytes, pos: nat)
    requires pos < |input| && input[pos] !in {ARRAY, BULK_STRING, SIMPLE_STRING, ERROR}
    ensures ValueAt(input, pos) == Err(UnsupportedType(input[pos]))
  {
  }

  /**
   * A bulk string whose length line reads as n: the n bytes after the line
   * when n + 2 bytes are left, a truncated input when fewer are, and a
   * failure for a negative n and for an n so large that n + 2 wraps around.
   */
  lemma BulkCases(input: Bytes, pos: nat, n: int, next: nat)
    requires pos < |input| && input[pos] == BULK_STRING
    requires IntegerAt(input, pos + 1) == Ok((n, next))
    ensures 0 <= n <= MaxBulk && next + n + 2 <= |input| ==> ValueAt(input, pos) == Ok((BulkValue(input[next..next + n]), next + n + 2))
    ensures 0 <= n <= MaxBulk && next + n + 2 > |input| ==> ValueAt(input, pos) == Err(Truncated)
    ensures n < -2 || MaxBulk < n ==> ValueAt(input, pos) == Err(NegativeLength)
    ensures n < 0 ==> ValueAt(input, pos).Err?
  {
  }

  /** The two bytes after a bulk string's payload are consumed whatever they are. */
  lemma BulkIgnoresTrailer(b: Bytes, trailer: Bytes, rest: Bytes)
    requires |b| <= MaxBulk && |trailer| == 2
    ensures ValueAt(BulkHeader(|b|) + b + trailer + rest, 0) == Ok((BulkValue(b), |EncodeBulk(b)|))
  {
    var input := BulkHeader(|b|) + b + trailer + rest;
    assert input[..|BulkHeader(|b|)| + |b|] == BulkHeader(|b|) + b;
    BulkFrame(input, 0, b);
  }

  /**
   * An array whose length line reads as n: no elements for n = 0, a failure
   * for a negative n, and otherwise the n values that follow, or the first
   * failure among them.
   */
  lemma ArrayCases(input: Bytes, pos: nat, n: int, next: nat)
    requires pos < |input| && input[pos] == ARRAY
    requires IntegerAt(input, pos + 1) == Ok((n, next))
    ensures n < 0 ==> ValueAt(input, pos) == Err(NegativeLength)
    ensures n == 0 ==> ValueAt(input, pos) == Ok((ArrayValue([]), next))
    ensures n >= 0 && ElementsAt(input, next, n).Err? ==> ValueAt(input, pos) == Err(ElementsAt(input, next, n).error)
    ensures n >= 0 && ElementsAt(input, next, n).Ok? ==>
              ValueAt(input, pos) == Ok((ArrayValue(ElementsAt(input, next, n).value.0), ElementsAt(input, next, n).value.1))
  {
    assert ValueAt(input, pos) == ArrayAt(input, pos + 1);
    if n == 0 {
      assert ElementsAt(input, next, 0) == Ok(([], next));
    }
  }

  /** The elements of an array are values decoded one after the other, in input order. */
  lemma {:induction false} ConsecutiveOfElements(input: Bytes, pos: nat, count: nat)
    requires pos <= |input| && ElementsAt(input, pos, count).Ok?
    ensures Consecutive(input, pos, ElementsAt(input, pos, count).value.0, ElementsAt(input, pos, count).value.1)
    decreases count
  {
    if count > 0 {
      var (v, next) := ValueAt(input, pos).value;
      ConsecutiveOfElements(input, next, count - 1);
      var (vs, end) := ElementsAt(input, next, count - 1).value;
      assert ElementsAt(input, pos, count).value == ([v] + vs, end);
      assert ([v] + vs)[1..] == vs;
    }
  }

  /** A decoder that reads the input through a cursor, as the source's `Reader` does. */
  class Reader {
    const input: Bytes
    var pos: nat

    constructor (input: Bytes)
      ensures this.input == input && pos == 0
    {
      this.input := input;
      pos := 0;
    }

    /** Scans for the first LF from the cursor, then drops the last two bytes of the line. */
    method ReadLine() returns (r: Result<Bytes>)
      requires pos <= |input|
      modifies this
      ensures pos <= |input|
      ensures r == WithoutPosition(LineAt(input, old(pos)))
      ensures r.Ok? ==> pos == LineAt(input, old(pos)).value.1
    {
      var start, i := pos, pos;
      while i < |input| && input[i] != LF
        invariant start <= i <= |input|
        invariant LineFrom(input, start, i) == LineAt(input, start)
        decreases |input| - i
      {
        i := i + 1;
      }
      if i == |input| {
        pos := |input|;
        return Err(EndOfInput);
      }
      var line := input[start..i + 1];
      pos := i + 1;
      if |line| < 2 {
        return Err(ShortLine);
      }
      assert line[..|line| - 2] == input[start..i - 1];
      r := Ok(line[..|line| - 2]);
    }

    method ReadInteger() returns (r: Result<int>)
      requires pos <= |input|
      modifies this
      ensures pos <= |input|
      ensures r == WithoutPosition(IntegerAt(input, old(pos)))
      ensures r.Ok? ==> pos == IntegerAt(input, old(pos)).value.1
    {
      var line := ReadLine();
      if line.Err? {
        return Err(line.error);
      }
      var n := Decimal.Parse(line.value);
      if n.None? {
        return Err(InvalidInteger);
      }
      r := Ok(n.value);
    }

    method ReadValue() returns (r: Result<Value>)
      requires pos <= |input|
      modifies this
      ensures pos <= |input|
      ensures r == WithoutPosition(ValueAt(input, old(pos)))
      ensures r.Ok? ==> pos == ValueAt(input, old(pos)).value.1
      decreases |input| - pos, 1
    {
      if pos == |input| {
        return Err(EndOfInput);
      }
      var typ := input[pos];
      pos := pos + 1;
      if typ == ARRAY {
        r := ParseArray();
      } else if typ == BULK_STRING {
        r := ParseBulkString();
      } else if typ == SIMPLE_STRING {
        r := ParseSimpleString();
      } else if typ == ERROR {
        r := ParseError();
      } else {
        r := Err(UnsupportedType(typ));
      }
    }

    /** Allocates the array up front, then fills it. */
    method ParseArray() returns (r: Result<Value>)
      requires pos <= |input|
      modifies this
      ensures pos <= |input|
      ensures r == WithoutPosition(ArrayAt(input, old(pos)))
      ensures r.Ok? ==> pos == ArrayAt(input, old(pos)).value.1
      decreases |input| - pos, 0
    {
      var length := ReadInteger();
      if length.Err? {
        return Err(length.error);
      }
      var n := length.value;
      if n < 0 {
        return Err(NegativeLength);
      }
      var elements := new Value[n];
      var filled := ReadElements(elements);
      if filled.Err? {
        return Err(filled.error);
      }
      r := Ok(ArrayValue(elements[..]));
    }

    /** The loop of `parseArray`: one ReadValue per slot of the array, in order. */
    method ReadElements(elements: array<Value>) returns (r: Result<()>)
      requires pos <= |input|
      modifies this, elements
      ensures pos <= |input|
      ensures r.Ok? <==> ElementsAt(input, old(pos), elements.Length).Ok?
      ensures r.Ok? ==> ElementsAt(input, old(pos), elements.Length).value == (elements[..], pos)
      ensures r.Err? ==> r.error == ElementsAt(input, old(pos), elements.Length).error
      decreases |input| - pos, 2
    {
      var n := elements.Length;
      PrependNothing(ElementsAt(input, pos, n));
      assert elements[..0] == [];
      var i := 0;
      while i < n
        invariant 0 <= i <= n
        invariant old(pos) <= pos <= |input|
        invariant ElementsAt(input, old(pos), n) == Prepend(elements[..i], ElementsAt(input, pos, n - i))
        decreases n - i
      {
        ghost var here, prefix := pos, elements[..i];
        var element := ReadValue();
        ElementsStep(input, here, n - i);
        if element.Err? {
          PrependFailure(prefix, element.error);
          return Err(element.error);
        }
        elements[i] := element.value;
        assert elements[..i] == prefix;
        PrependTwice(prefix, element.value, ElementsAt(input, pos, n - i - 1));
        assert elements[..i + 1] == prefix + [element.value];
        i := i + 1;
      }
      assert elements[..n] + [] == elements[..];
      r := Ok(());
    }

    method ParseBulkString() returns (r: Result<Value>)
      requires pos <= |input|
      modifies this
      ensures pos <= |input|
      ensures r == WithoutPosition(BulkAt(input, old(pos)))
      ensures r.Ok? ==> pos == BulkAt(input, old(pos)).value.1
    {
      var length := ReadInteger();
      if length.Err? {
        return Err(length.error);
      }
      var n := length.value;
      var size := Decimal.AddInt64(n, 2);
      if size < 0 {
        return Err(NegativeLength);
      }
      if |input| - pos < size {
        pos := |input|;
        return Err(Truncated);
      }
      ghost var body := pos;
      var buf := input[pos..pos + size];
      pos := pos + size;
      if n < 0 {
        return Err(NegativeLength);
      }
      assert size == n + 2;
      SliceOfSlice(input, body, body + size, 0, n);
      assert buf[..n] == input[body..body + n];
      r := Ok(BulkValue(buf[..n]));
    }

    method ParseSimpleString() returns (r: Result<Value>)
      requires pos <= |input|
      modifies this
      ensures pos <= |input|
      ensures r == WithoutPosition(TextAt(SIMPLE_STRING, input, old(pos)))
      ensures r.Ok? ==> pos == TextAt(SIMPLE_STRING, input, old(pos)).value.1
    {
      var line := ReadLine();
      if line.Err? {
        return Err(line.error);
      }
      r := Ok(Value(SIMPLE_STRING, line.value, [], []));
    }

    method ParseError() returns (r: Result<Value>)
      requires pos <= |input|
      modifies this
      ensures pos <= |input|
      ensures r == WithoutPosition(TextAt(ERROR, input, old(pos)))
      ensures r.Ok? ==> pos == TextAt(ERROR, input, old(pos)).value.1
    {
      var line := ReadLine();
      if line.Err? {
        return Err(line.error);
      }
      r := Ok(Value(ERROR, line.value, [], []));
    }
  }
}
