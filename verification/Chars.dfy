/** Characters and `char_traits<char>` as the stream buffers use them. */
module Chars {
  type Byte = n: int | 0 <= n < 256

  const EOF := -1

  /** `to_char_type`: keeps the low eight bits. */
  function ToCharType(c: int): (b: Byte)
    ensures (c - b) % 256 == 0
    ensures 0 <= c < 256 ==> b == c
  {
    c % 256
  }

  /** `not_eof`: some value other than `EOF` stands in for it. */
  function NotEof(c: int): (r: int)
    ensures r != EOF && (c != EOF ==> r == c)
  {
    if c == EOF then 0 else c
  }

  function Min(a: int, b: int): int {
    if a < b then a else b
  }

  function Max(a: int, b: int): int {
    if a < b then b else a
  }

  /** Two steps that each pass bytes through in order make one that does. */
  lemma Chain(q: seq<Byte>, a: seq<Byte>, b: seq<Byte>, t: seq<Byte>, r: seq<Byte>, u: seq<Byte>, z: seq<Byte>)
    requires q + a == t + r && r + b == u + z
    ensures q + (a + b) == (t + u) + z
  {
    assert q + (a + b) == (q + a) + b;
    assert (t + r) + b == t + (r + b);
    assert t + (u + z) == (t + u) + z;
  }
}
