/** Bytes, ASCII text and the ASCII case mapping the server applies to command names. */
module Ascii {

  newtype byte = b: int | 0 <= b < 256

  /** A Go `string` or `[]byte`: keys, payloads and wire data are all byte sequences. */
  type Bytes = seq<byte>

  datatype Option<+T> = None | Some(value: T)

  const CR: byte := 13
  const LF: byte := 10
  const CRLF: Bytes := [CR, LF]

  /** The bytes of an ASCII string literal. */
  function Text(s: string): Bytes
    requires forall i | 0 <= i < |s| :: s[i] as int < 128
  {
    seq(|s|, i requires 0 <= i < |s| => s[i] as int as byte)
  }

  /** ASCII upper-casing of one byte: 'a'..'z' become 'A'..'Z', every other byte is kept. */
  function UpperByte(b: byte): byte
  {
    if 97 <= b <= 122 then b - 32 else b
  }

  /** ASCII lower-casing of one byte. */
  function LowerByte(b: byte): byte
  {
    if 65 <= b <= 90 then b + 32 else b
  }

  /**
   * `strings.ToUpper` on ASCII: the string that differs from s only in the
   * case of its letters and holds no lower-case letter.
   */
  function Upper(s: Bytes): (r: Bytes)
    ensures |r| == |s| && SameIgnoringCase(s, r)
    ensures forall i | 0 <= i < |r| :: !(97 <= r[i] <= 122)
  {
    seq(|s|, i requires 0 <= i < |s| => UpperByte(s[i]))
  }

  function Lower(s: Bytes): Bytes
  {
    seq(|s|, i requires 0 <= i < |s| => LowerByte(s[i]))
  }

  /** Two byte strings that differ at most in the case of their letters. */
  predicate SameIgnoringCase(a: Bytes, b: Bytes)
  {
    |a| == |b| && forall i | 0 <= i < |a| :: UpperByte(a[i]) == UpperByte(b[i])
  }

  /** Upper-casing identifies exactly the strings that differ only in case. */
  lemma UpperIdentifiesCase(a: Bytes, b: Bytes)
    ensures Upper(a) == Upper(b) <==> SameIgnoringCase(a, b)
  {
    if Upper(a) == Upper(b) {
      assert |a| == |Upper(a)|;
      forall i | 0 <= i < |a| ensures UpperByte(a[i]) == UpperByte(b[i]) {
        assert Upper(a)[i] == Upper(b)[i];
      }
    }
  }

}
