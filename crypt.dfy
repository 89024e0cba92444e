/**
 * The payload obfuscation of the routing engine (ZHNetwork.cpp): the first
 * `messageSize` payload bytes are XOR-ed with the key repeated, byte `i`
 * with key byte `i % strlen(key)`.
 */
module Crypt {
  import opened Records

  /** The payload after obfuscation; bytes from `size` on are untouched. */
  function Xored(msg: seq<byte>, size: nat, key: seq<byte>): (r: seq<byte>)
    requires |key| > 0
    ensures |r| == |msg|
    ensures size <= |msg| ==> r[size..] == msg[size..]
  {
    seq(|msg|, i requires 0 <= i < |msg| => if i < size then msg[i] ^ key[i % |key|] else msg[i])
  }

  /** The in-place loop over the payload, as written at each obfuscation site. */
  method Xor(msg: seq<byte>, size: uint8, key: seq<byte>) returns (r: seq<byte>)
    requires |key| > 0
    ensures r == Xored(msg, size, key)
  {
    r := msg;
    var i := 0;
    while i < size && i < |r|
      invariant i <= |r| == |msg|
      invariant forall j :: 0 <= j < i ==> r[j] == Xored(msg, size, key)[j]
      invariant forall j :: i <= j < |msg| ==> r[j] == msg[j]
    {
      r := r[i := r[i] ^ key[i % |key|]];
      i := i + 1;
    }
  }

  lemma XorTwice(a: byte, k: byte)
    ensures (a ^ k) ^ k == a
  {
  }

  /** Obfuscation is its own inverse: the receiver's pass with the same key restores the payload. */
  lemma XoredInvolution(msg: seq<byte>, size: nat, key: seq<byte>)
    requires |key| > 0
    ensures Xored(Xored(msg, size, key), size, key) == msg
  {
    var once := Xored(msg, size, key);
    forall i | 0 <= i < |msg|
      ensures Xored(once, size, key)[i] == msg[i]
    {
      if i < size {
        XorTwice(msg[i], key[i % |key|]);
      }
    }
  }

  /** With a key, exactly the bytes before `size` whose key byte is non-zero change. */
  lemma XoredChangesPrefixOnly(msg: seq<byte>, size: nat, key: seq<byte>, i: nat)
    requires |key| > 0 && i < |msg|
    ensures Xored(msg, size, key)[i] != msg[i] <==> i < size && key[i % |key|] != 0
  {
  }
}
