/**
 * The primitive of ZCZ: Deoxys-BC-128-384 under the 32-byte tweak that
 * build_tweak lays out (ref/zcz.c), and the tweakable cipher of module
 * Zcz instantiated with it, once with the reference Deoxys-BC and once
 * with the optimised scalar one.
 */
module ZczDeoxys {
  import opened Wrappers
  import opened Bytes
  import opened Deoxys
  import DeoxysOpt
  import Zcz

  /**
   * build_tweak: bytes 0 .. 15 hold the tweak block, byte 16 the low byte
   * of the domain, bytes 17 .. 23 zero and bytes 24 .. 31 the counter
   * little-endian (a size_t, so taken modulo 2^64).
   */
  function BuildTweak(domain: nat, counter: nat, tweakBlock: Block): (tw: seq<Byte>)
    ensures |tw| == 32
    ensures tw[..16] == tweakBlock
    ensures tw[16] == (domain % 256) as Byte
    ensures forall i | 17 <= i < 24 :: tw[i] == 0
    ensures FromLe(tw[24..]) == Zcz.WordOf(counter)
  {
    var tw := tweakBlock + [(domain % 256) as Byte] + Zeros(7) + ToLe(Zcz.WordOf(counter));
    assert tw[24..] == ToLe(Zcz.WordOf(counter));
    LeRoundTrip(Zcz.WordOf(counter), tw[24..]);
    tw
  }

  /**
   * Two tweaks are equal exactly when the tweak blocks, the domain bytes
   * and the 64-bit counters are: this is what separates the domains and
   * the counters of the mode.
   */
  lemma BuildTweakInjective(d1: nat, c1: nat, b1: Block, d2: nat, c2: nat, b2: Block)
    ensures BuildTweak(d1, c1, b1) == BuildTweak(d2, c2, b2)
        <==> (d1 % 256) as Byte == (d2 % 256) as Byte && Zcz.WordOf(c1) == Zcz.WordOf(c2) && b1 == b2
  {
    var t1 := BuildTweak(d1, c1, b1);
    var t2 := BuildTweak(d2, c2, b2);
    if t1 == t2 {
      assert t1[16] == t2[16];
      assert t1[24..] == t2[24..];
      assert t1[..16] == t2[..16];
    }
  }

  /**
   * The optimised setup_tweak puts the domain in byte 0 and the counter
   * in bytes 8 .. 15 of its second block: the same 32 bytes.
   */
  lemma BuildTweakIsRefTweak(domain: nat, counter: nat, tweakBlock: Block)
    ensures BuildTweak(domain, counter, tweakBlock)
         == DeoxysOpt.RefTweak((domain % 256) as Byte, Zcz.WordOf(counter), tweakBlock)
  {
    var tw := BuildTweak(domain, counter, tweakBlock);
    var rt := DeoxysOpt.RefTweak((domain % 256) as Byte, Zcz.WordOf(counter), tweakBlock);
    var lo := ToLe(((domain % 256) as Byte) as Word);
    assert lo[0] == (domain % 256) as Byte;
    assert forall i | 1 <= i < 8 :: lo[i] == 0;
    assert forall i | 0 <= i < 32 :: tw[i] == rt[i];
  }

  /** zcz_primitive_encrypt / zcz_primitive_decrypt with the reference Deoxys-BC-128-384 and key. */
  function RefTbc(a: Aes, key: Block): Zcz.Tbc
  {
    Zcz.Tbc((d: nat, c: nat, tb: Block, x: Block) => Encrypt(a, Deoxys128x384, key, BuildTweak(d, c, tb), x),
            (d: nat, c: nat, tb: Block, y: Block) => Decrypt(a, Deoxys128x384, key, BuildTweak(d, c, tb), y))
  }

  /** With the FIPS 197 inverse identities, the primitive decryption inverts the encryption. */
  lemma RefTbcInverts(a: Aes, key: Block)
    requires Inverses(a)
    ensures Zcz.Inverts(RefTbc(a, key))
  {
    forall d: nat, c: nat, tb: Block, x: Block
      ensures RefTbc(a, key).dec(d, c, tb, RefTbc(a, key).enc(d, c, tb, x)) == x
    {
      var tw := BuildTweak(d, c, tb);
      var y := Encrypt(a, Deoxys128x384, key, tw, x);
      assert RefTbc(a, key).enc(d, c, tb, x) == y;
      EncryptDecrypt(a, Deoxys128x384, key, tw, x);
      assert RefTbc(a, key).dec(d, c, tb, y) == Decrypt(a, Deoxys128x384, key, tw, y);
    }
  }

  /** So ZCZ over Deoxys-BC decrypts what it encrypted, through both APIs. */
  lemma DeoxysZczRoundTrip(a: Aes, key: Block, m: seq<Byte>)
    requires Inverses(a)
    ensures Zcz.ZczEncrypt(RefTbc(a, key), m).Some? <==> |m| >= 32
    ensures Zcz.ZczEncrypt(RefTbc(a, key), m).Some?
        ==> Zcz.ZczDecrypt(RefTbc(a, key), Zcz.ZczEncrypt(RefTbc(a, key), m).value) == Some(m)
    ensures Zcz.ZczBasicEncrypt(RefTbc(a, key), m).Some?
        ==> Zcz.ZczBasicDecrypt(RefTbc(a, key), Zcz.ZczBasicEncrypt(RefTbc(a, key), m).value) == Some(m)
  {
    RefTbcInverts(a, key);
    Zcz.ZczRoundTrip(RefTbc(a, key), m);
  }

  /**
   * The optimised build's deoxys_bc_128_384_encrypt / _decrypt take the
   * domain as a uint8_t and the counter as a size_t.
   */
  function OptTbc(a: Aes, key: Block): Zcz.Tbc
  {
    Zcz.Tbc((d: nat, c: nat, tb: Block, x: Block) =>
              DeoxysOpt.BlockEncrypt(a, key, (d % 256) as Byte, Zcz.WordOf(c), tb, x),
            (d: nat, c: nat, tb: Block, y: Block) =>
              DeoxysOpt.BlockDecrypt(a, key, (d % 256) as Byte, Zcz.WordOf(c), tb, y))
  }

  /** The reference primitive under the 32-byte tweak the optimised arguments stand for. */
  lemma RefTbcAt(a: Aes, key: Block, d: nat, c: nat, tb: Block, x: Block)
    ensures RefTbc(a, key).enc(d, c, tb, x)
         == Encrypt(a, Deoxys128x384, key, DeoxysOpt.RefTweak((d % 256) as Byte, Zcz.WordOf(c), tb), x)
    ensures RefTbc(a, key).dec(d, c, tb, x)
         == Decrypt(a, Deoxys128x384, key, DeoxysOpt.RefTweak((d % 256) as Byte, Zcz.WordOf(c), tb), x)
  {
    BuildTweakIsRefTweak(d, c, tb);
  }

  /** The optimised primitive encryption computes the reference one on every input. */
  lemma OptEncIsRefEnc(a: Aes, key: Block, d: nat, c: nat, tb: Block, x: Block)
    ensures OptTbc(a, key).enc(d, c, tb, x) == RefTbc(a, key).enc(d, c, tb, x)
  {
    RefTbcAt(a, key, d, c, tb, x);
    DeoxysOpt.BlockEncryptIsRef(a, key, (d % 256) as Byte, Zcz.WordOf(c), tb, x);
  }

  /** And so does the decryption, given the FIPS 197 inverse identities. */
  lemma OptDecIsRefDec(a: Aes, key: Block, d: nat, c: nat, tb: Block, y: Block)
    requires Inverses(a)
    ensures OptTbc(a, key).dec(d, c, tb, y) == RefTbc(a, key).dec(d, c, tb, y)
  {
    RefTbcAt(a, key, d, c, tb, y);
    DeoxysOpt.BlockDecryptIsRef(a, key, (d % 256) as Byte, Zcz.WordOf(c), tb, y);
  }

  /** Hence the optimised primitive inverts itself as well. */
  lemma OptTbcInverts(a: Aes, key: Block)
    requires Inverses(a)
    ensures Zcz.Inverts(OptTbc(a, key))
  {
    RefTbcInverts(a, key);
    forall d: nat, c: nat, tb: Block, x: Block
      ensures OptTbc(a, key).dec(d, c, tb, OptTbc(a, key).enc(d, c, tb, x)) == x
    {
      OptEncIsRefEnc(a, key, d, c, tb, x);
      OptDecIsRefDec(a, key, d, c, tb, OptTbc(a, key).enc(d, c, tb, x));
    }
  }
}
