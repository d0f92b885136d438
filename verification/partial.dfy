/**
 * Partial loads and stores of the optimised build (opt/utils-opt.c): how
 * a message tail shorter than a block gets into and out of a register.
 */
module Partial {
  import opened Bytes
  import opened Register

  /**
   * load_partial(p, n).  For n = 0 the result is zero; for a nonzero
   * multiple of 16 it is the first sixteen bytes of p; otherwise the first
   * n bytes are copied into a 16-byte temporary whose other bytes were
   * never written, given here as `stale`.  The copy loop writes n bytes
   * into that temporary, so the last branch is only defined for n < 16:
   * a length above 16 that is not a multiple of 16 overruns the temporary
   * and is excluded by the requires.
   */
  function LoadPartial(p: seq<Byte>, n: nat, stale: Block): (r: Reg)
    requires n % 16 != 0 ==> n < 16 && n <= |p|
    requires n != 0 && n % 16 == 0 ==> 16 <= |p|
    ensures n == 0 ==> r == Zero()
    ensures n != 0 && n % 16 == 0 ==> Store(r) == p[..16]
    ensures n % 16 != 0 ==> Store(r)[..n] == p[..n] && Store(r)[n..] == stale[n..]
  {
    if n == 0 then
      Zero()
    else if n % 16 == 0 then
      LoadStore(Zero(), p[..16]);
      Load(p[..16])
    else
      var tmp := p[..n] + stale[n..];
      LoadStore(Zero(), tmp);
      Load(tmp)
  }

  /**
   * store_partial(q, x, n): nothing for n = 0, sixteen bytes for n >= 16,
   * otherwise the first n bytes of x.  Every other byte of q keeps its
   * value.
   */
  function StorePartial(q: seq<Byte>, x: Reg, n: nat): (r: seq<Byte>)
    requires n < 16 ==> n <= |q|
    requires n >= 16 ==> 16 <= |q|
    ensures |r| == |q|
    ensures n == 0 ==> r == q
    ensures n >= 16 ==> r[..16] == Store(x) && r[16..] == q[16..]
    ensures 0 < n < 16 ==> r[..n] == Store(x)[..n] && r[n..] == q[n..]
  {
    if n == 0 then q
    else if n >= 16 then Store(x) + q[16..]
    else Store(x)[..n] + q[n..]
  }

  /**
   * A partial load followed by a partial store of the same length copies
   * the first n bytes of p and nothing else, whatever the stale bytes.
   */
  lemma PartialCopy(p: seq<Byte>, q: seq<Byte>, n: nat, stale: Block)
    requires n <= 16 && n <= |p| && n <= |q|
    ensures StorePartial(q, LoadPartial(p, n, stale), n)[..n] == p[..n]
    ensures StorePartial(q, LoadPartial(p, n, stale), n)[n..] == q[n..]
  {
  }
}
