/** Who signs: addresses, signatures under their keys, and the controller of a network. */
module Identities {
  import opened Words

  const SIGNATURE_LEN: nat := 96

  type Signature = s: seq<byte> | |s| == SIGNATURE_LEN witness seq(SIGNATURE_LEN, _ => 0)

  /** Who is known, and signatures under their keys. */
  datatype Directory = Directory(known: nat -> bool, sign: (nat, seq<byte>) -> Signature,
                                 verify: (nat, seq<byte>, seq<byte>) -> bool)
  {
    /** Signatures verify under the signer's address. */
    ghost predicate Ideal()
    {
      forall a: nat, m: seq<byte> :: verify(a, m, sign(a, m))
    }
  }

  /** The signature verifies for this message and for no other. */
  ghost predicate BindsTo(d: Directory, a: nat, signature: seq<byte>, m: seq<byte>)
  {
    forall m': seq<byte> :: d.verify(a, m', signature) ==> m' == m
  }

  /** That goes together with signatures that all verify: for every message there is a directory of
      that kind in which its signature stands for nothing else. */
  lemma BindingIsPossible(a: nat, m: seq<byte>) returns (d: Directory)
    ensures d.Ideal() && BindsTo(d, a, d.sign(a, m), m) && forall b :: d.known(b)
  {
    var mark, other: Signature := seq(SIGNATURE_LEN, _ => 1), seq(SIGNATURE_LEN, _ => 0);
    assert mark[0] != other[0];
    var sign := (_: nat, n: seq<byte>) => if n == m then mark else other;
    d := Directory(_ => true, sign, (b: nat, n: seq<byte>, s: seq<byte>) => s == sign(b, n));
  }

  /** The controller's address is the top 40 bits of the network id. */
  function ControllerFor(nwid: nat): nat
  {
    (nwid / 0x100_0000) % 0x100_0000_0000
  }

  /** A network's controller is the address its id begins with. */
  lemma ControllerOf(a: nat, n: nat)
    requires a < 0x100_0000_0000 && n < 0x100_0000
    ensures ControllerFor(a * 0x100_0000 + n) == a
  {
  }
}
