/**
 * Go strings are byte strings. A file's bytes become a string by `string(data)`
 * and a string is written by `WriteString`; both are modelled here as the
 * Latin-1 correspondence between bytes and the characters 0..255.
 */
module Text {

  type byte = bv8

  function Byte(c: char): byte {
    ((c as int) % 256) as byte
  }

  function Char(b: byte): char {
    (b as int) as char
  }

  /** The bytes `io.WriteString` writes for `s`. */
  function Bytes(s: string): (r: seq<byte>)
    ensures |r| == |s|
  {
    seq(|s|, i requires 0 <= i < |s| => Byte(s[i]))
  }

  /** `string(data)` */
  function Chars(data: seq<byte>): (r: string)
    ensures |r| == |data|
  {
    seq(|data|, i requires 0 <= i < |data| => Char(data[i]))
  }

  predicate Narrow(s: string) {
    forall i :: 0 <= i < |s| ==> (s[i] as int) < 256
  }

  /** Writing a narrow string to a file and reading it back gives the string again. */
  lemma CharsOfBytes(s: string)
    requires Narrow(s)
    ensures Chars(Bytes(s)) == s
  {
    forall i | 0 <= i < |s|
      ensures Chars(Bytes(s))[i] == s[i]
    {
      CharOfByte(s[i]);
    }
  }

  lemma CharOfByte(c: char)
    requires (c as int) < 256
    ensures Char(Byte(c)) == c
  {
  }

  predicate IsPrefix(t: string, s: string) {
    |t| <= |s| && s[..|t|] == t
  }

  /** `strings.Contains(s, t)`: t occurs in s as a contiguous substring. */
  function Contains(s: string, t: string): bool
    decreases |s|
  {
    IsPrefix(t, s) || (|s| > 0 && Contains(s[1..], t))
  }

  /** A string never contains a longer one. */
  lemma {:induction false} ContainsOnlyShorter(s: string, t: string)
    requires |s| < |t|
    ensures !Contains(s, t)
    decreases |s|
  {
    if |s| > 0 {
      ContainsOnlyShorter(s[1..], t);
    }
  }

  /** Every string contains the empty string. */
  lemma ContainsEmpty(s: string)
    ensures Contains(s, "")
  {
  }

  /** Two strings of the same length contain each other exactly when they are equal. */
  lemma ContainsSameLength(s: string, t: string)
    requires |s| == |t|
    ensures Contains(s, t) <==> s == t
  {
    if |s| > 0 {
      ContainsOnlyShorter(s[1..], t);
    }
    assert s[..|t|] == s;
  }
}
