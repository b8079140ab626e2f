/** The configuration entities the forwarder passes around. */
module Config {
  import opened Bytes

  const MAX_INTERFACES := 16
  const MAX_PROFILES := 32
  const MAX_PROFILE_INTERFACES := 16
  const MAX_CRYPTO_POLICIES := 128
  const PROTO_ANY: uint8 := 0

  const ACTION_BYPASS := 0
  const ACTION_L2 := 2
  const ACTION_L3 := 3
  const ACTION_L4 := 4

  /** A traffic selector with the way matching packets are treated.  A port range with a negative end matches every
      port. */
  datatype CryptoPolicy = CryptoPolicy(
    id: int, dbId: int, priority: int, action: int, protocol: uint8,
    srcPortFrom: int, srcPortTo: int, dstPortFrom: int, dstPortTo: int,
    srcAny: bool, dstAny: bool, srcNegate: bool, dstNegate: bool,
    srcNet: bv32, srcMask: bv32, dstNet: bv32, dstMask: bv32,
    cryptoMode: int, aesBits: int, nonceSize: int, key: seq<uint8>)
  {
    /** The byte that stands for the policy on the wire. */
    function WireId(): uint8 { id % 0x100 }
  }

  datatype Profile = Profile(
    id: int, name: string, enabled: bool,
    locals: seq<int>, wans: seq<int>, weights: seq<int>, policies: seq<int>)

  /** The wire ids of a policy list tell its policies apart. */
  predicate DistinctWireIds(policies: seq<CryptoPolicy>)
  {
    && (forall i | 0 <= i < |policies| :: 1 <= policies[i].id <= 0xFF)
    && (forall i, j | 0 <= i < j < |policies| :: policies[i].id != policies[j].id)
  }
}
