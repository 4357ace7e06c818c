/** flow.c and flow.h: the two keys of a flow, the flow itself, and the key hashes. */
module Flow {
  import opened Words
  import opened HashTable

  /** How the internal network sees a flow. */
  datatype IntKey = IntKey(intSrcPort: u16, dstPort: u16, intSrcIp: u32, dstIp: u32, intDeviceId: u8, protocol: u8)

  /** How the external network sees a flow. */
  datatype ExtKey = ExtKey(extSrcPort: u16, dstPort: u16, extSrcIp: u32, dstIp: u32, extDeviceId: u8, protocol: u8)

  datatype Flow = Flow(
    ik: IntKey, ek: ExtKey,
    intSrcPort: u16, extSrcPort: u16, dstPort: u16,
    intSrcIp: u32, extSrcIp: u32, dstIp: u32,
    intDeviceId: u8, extDeviceId: u8, protocol: u8)

  const LLONG_MAX: int := 0x7fff_ffff_ffff_ffff

  /** `wrap` */
  function Wrap(x: int): (r: int)
    ensures -INT_MAX < r < INT_MAX && (x >= 0 ==> r >= 0)
  {
    HashTable.TruncRem(x, INT_MAX)
  }

  /** The polynomial both hashes accumulate, which stays far below the range of `long long`. */
  function Mix(a: u16, b: u16, c: u32, d: u32, e: u8, f: u8): (r: int)
    ensures 0 <= r <= LLONG_MAX
  {
    ((((a * 31 + b) * 31 + c) * 31 + d) * 31 + e) * 31 + f
  }

  function IntKeyHash(k: IntKey): (h: int)
    ensures 0 <= h < INT_MAX
  {
    Wrap(Mix(k.intSrcPort, k.dstPort, k.intSrcIp, k.dstIp, k.intDeviceId, k.protocol))
  }

  function ExtKeyHash(k: ExtKey): (h: int)
    ensures 0 <= h < INT_MAX
  {
    Wrap(Mix(k.extSrcPort, k.dstPort, k.extSrcIp, k.dstIp, k.extDeviceId, k.protocol))
  }

  /** Both hashes are the sum of the fields, weighted by powers of 31, modulo `INT_MAX`. */
  lemma HashesAreWeightedSums(k: IntKey, e: ExtKey)
    ensures IntKeyHash(k) == (28629151 * k.intSrcPort + 923521 * k.dstPort + 29791 * k.intSrcIp + 961 * k.dstIp
                              + 31 * k.intDeviceId + k.protocol) % 0x7fff_ffff
    ensures ExtKeyHash(e) == (28629151 * e.extSrcPort + 923521 * e.dstPort + 29791 * e.extSrcIp + 961 * e.dstIp
                              + 31 * e.extDeviceId + e.protocol) % 0x7fff_ffff
  {
  }

  /** `flow_extract_keys` */
  function IntKeyOf(f: Flow): IntKey { f.ik }

  function ExtKeyOf(f: Flow): ExtKey { f.ek }
}
