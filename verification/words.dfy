/** Little-endian machine words in a byte buffer: the representation behind every header field
    that the bootstrap pool keeps inside its own buffer. */
module Words {

  const WORD_LIMIT: nat := 0x1_0000_0000_0000_0000

  type Byte = x: int | 0 <= x < 256

  /** Arithmetic of size_t: everything is taken modulo 2^64. */
  function Wrap(x: int): (r: nat)
    ensures r < WORD_LIMIT
    ensures 0 <= x < WORD_LIMIT ==> r == x
  {
    x % WORD_LIMIT
  }

  function Pow256(n: nat): (r: nat)
    ensures r > 0
  {
    if n == 0 then 1 else 256 * Pow256(n - 1)
  }

  /** The n low bytes of w, least significant first. */
  function Encode(w: nat, n: nat): (s: seq<Byte>)
    ensures |s| == n
  {
    if n == 0 then [] else [w % 256] + Encode(w / 256, n - 1)
  }

  function Decode(s: seq<Byte>): nat {
    if s == [] then 0 else s[0] + 256 * Decode(s[1..])
  }

  lemma {:induction false} DecodeEncode(w: nat, n: nat)
    requires w < Pow256(n)
    ensures Decode(Encode(w, n)) == w
  {
    if n > 0 {
      assert w / 256 < Pow256(n - 1);
      DecodeEncode(w / 256, n - 1);
      assert Encode(w, n)[1..] == Encode(w / 256, n - 1);
    }
  }

  lemma EightBytes()
    ensures Pow256(8) == WORD_LIMIT
  {
    assert Pow256(2) == 0x1_0000;
    assert Pow256(4) == 0x1_0000_0000;
    assert Pow256(6) == 0x1_0000_0000_0000;
  }

  /** The 64-bit word stored at offset `off`. */
  function Word(b: seq<Byte>, off: nat): nat
    requires off + 8 <= |b|
  {
    Decode(b[off..off + 8])
  }

  /** Nothing outside [lo, hi) changed: neither a byte nor a word. */
  ghost predicate SameOutside(before: seq<Byte>, after: seq<Byte>, lo: nat, hi: nat) {
    && |before| == |after|
    && (forall p :: 0 <= p < |before| && !(lo <= p < hi) ==> after[p] == before[p])
    && (forall o: nat :: o + 8 <= |before| && (o + 8 <= lo || hi <= o) ==> Word(after, o) == Word(before, o))
  }

  /** Stores the word w at offset `off`; every other byte, hence every word that does not
      overlap it, keeps its value. */
  method WriteWord(buf: array<Byte>, off: nat, w: nat)
    requires off + 8 <= buf.Length && w < WORD_LIMIT
    modifies buf
    ensures Word(buf[..], off) == w
    ensures SameOutside(old(buf[..]), buf[..], off, off + 8)
  {
    ghost var before := buf[..];
    var bytes := Encode(w, 8);
    for i := 0 to 8
      invariant buf[off..off + i] == bytes[..i]
      invariant forall p :: 0 <= p < buf.Length && !(off <= p < off + i) ==> buf[p] == before[p]
    {
      buf[off + i] := bytes[i];
    }
    assert buf[..][off..off + 8] == bytes;
    EightBytes();
    DecodeEncode(w, 8);
    forall o: nat | o + 8 <= buf.Length && (o + 8 <= off || off + 8 <= o)
      ensures Word(buf[..], o) == Word(before, o)
    {
      assert buf[..][o..o + 8] == before[o..o + 8];
    }
  }
}
