/** Strings as the server stores them: bytes, cut into characters by the encoding's `pg_mblen`. */
module Multibyte {

  import opened Bytes

  type Char = seq<byte>

  /** `pg_mblen`: the length of the character at a pointer, given the bytes from the pointer on. */
  type Encoding = seq<byte> -> nat

  predicate WellEncoded(mblen: Encoding, b: seq<byte>)
    decreases |b|
  {
    b == [] || (1 <= mblen(b) <= |b| && WellEncoded(mblen, b[mblen(b)..]))
  }

  /** The characters of a string; `pg_mbstrlen_with_len` is their number. */
  function Chars(mblen: Encoding, b: seq<byte>): seq<Char>
    requires WellEncoded(mblen, b)
    decreases |b|
  {
    if b == [] then [] else [b[..mblen(b)]] + Chars(mblen, b[mblen(b)..])
  }

  /** Where character `k` starts. */
  ghost function Offset(cs: seq<Char>, k: nat): nat
    requires k <= |cs|
  {
    if k == 0 then 0 else Offset(cs, k - 1) + |cs[k-1]|
  }

  lemma {:induction false} OffsetOfTail(cs: seq<Char>, k: nat)
    requires 0 < k <= |cs|
    ensures Offset(cs, k) == |cs[0]| + Offset(cs[1..], k - 1)
  {
    if k > 1 { OffsetOfTail(cs, k - 1); }
  }

  lemma DropDrop(b: seq<byte>, h: nat, o: nat, len: nat)
    requires h + o + len <= |b|
    ensures b[h..][o..] == b[h + o..] && b[h..][o..o + len] == b[h + o..h + o + len]
  {}

  /** At the offset of character `k` stand its bytes, and `pg_mblen` there is its length. */
  lemma {:induction false} CharAtOffset(mblen: Encoding, b: seq<byte>, k: nat)
    requires WellEncoded(mblen, b) && k < |Chars(mblen, b)|
    ensures var cs := Chars(mblen, b); var o := Offset(cs, k);
            && 1 <= |cs[k]| && o + |cs[k]| <= |b|
            && mblen(b[o..]) == |cs[k]| && b[o..o + |cs[k]|] == cs[k]
    decreases |b|
  {
    var cs, h := Chars(mblen, b), mblen(b);
    if k == 0 {
      assert b[0..] == b;
    } else {
      var rest := b[h..];
      assert cs[1..] == Chars(mblen, rest);
      CharAtOffset(mblen, rest, k - 1);
      OffsetOfTail(cs, k);
      DropDrop(b, h, Offset(cs[1..], k - 1), |cs[k]|);
    }
  }

  /** A string together with its characters and their places. */
  datatype Text = Text(mblen: Encoding, bytes: seq<byte>, chars: seq<Char>, off: int -> int) {

    /** The bytes of character `k` start at `off(k)`, and `pg_mblen` there is its length. */
    ghost predicate Stands(k: nat)
      requires k < |chars|
    {
      && 0 <= off(k) && off(k + 1) == off(k) + |chars[k]| <= |bytes|
      && 1 <= |chars[k]| == mblen(bytes[off(k)..]) && bytes[off(k)..off(k + 1)] == chars[k]
    }

    ghost predicate Valid() {
      && off(0) == 0 && (forall k: nat :: k < |chars| ==> Stands(k))
      && (|chars| == |bytes| ==> SingleByte())
    }

    ghost predicate SingleByte() {
      |chars| == |bytes| && forall k :: 0 <= k < |bytes| ==> chars[k] == [bytes[k]] && off(k) == k
    }
  }

  ghost function TextOf(mblen: Encoding, b: seq<byte>): (v: Text)
    requires WellEncoded(mblen, b)
    ensures v.Valid() && v.mblen == mblen && v.bytes == b && v.chars == Chars(mblen, b)
  {
    var cs := Chars(mblen, b);
    var v := Text(mblen, b, cs, (k: int) => if 0 <= k <= |cs| then Offset(cs, k) else 0);
    assert v.Valid() by { PlacesAreValid(mblen, b, v); }
    v
  }

  lemma PlacesAreValid(mblen: Encoding, b: seq<byte>, v: Text)
    requires WellEncoded(mblen, b) && v.mblen == mblen && v.bytes == b && v.chars == Chars(mblen, b)
    requires forall k :: 0 <= k <= |v.chars| ==> v.off(k) == Offset(v.chars, k)
    ensures v.Valid()
  {
    forall k: nat | k < |v.chars| ensures v.Stands(k) { CharAtOffset(mblen, b, k); }
    if |v.chars| == |b| {
      SingleBytes(mblen, b);
      forall k | 0 <= k < |b| ensures v.off(k) == k { SingleByteOffset(v.chars, k); }
    }
  }

  /** If there are as many characters as bytes then each character is one byte. */
  lemma {:induction false} SingleBytes(mblen: Encoding, b: seq<byte>)
    requires WellEncoded(mblen, b)
    ensures |Chars(mblen, b)| <= |b|
    ensures |Chars(mblen, b)| == |b| ==> forall k :: 0 <= k < |b| ==> Chars(mblen, b)[k] == [b[k]]
    decreases |b|
  {
    if b != [] {
      var rest := b[mblen(b)..];
      SingleBytes(mblen, rest);
      if |Chars(mblen, b)| == |b| {
        forall k | 0 <= k < |b| ensures Chars(mblen, b)[k] == [b[k]] {
          if k > 0 { assert Chars(mblen, b)[k] == Chars(mblen, rest)[k-1] == [rest[k-1]]; }
        }
      }
    }
  }

  lemma {:induction false} SingleByteOffset(cs: seq<Char>, k: nat)
    requires k <= |cs| && forall i :: 0 <= i < |cs| ==> |cs[i]| == 1
    ensures Offset(cs, k) == k
  {
    if k > 0 { SingleByteOffset(cs, k - 1); }
  }
}
