/** The striped locks behind the API handlers: 256 mutexes, chosen by an FNV-1a hash of the object. */
module ApiMutex {
  import opened Wrappers

  const NUM_STRIPES: nat := 256

  const TYPE_META_DATA: Byte := 2

  const FNV_OFFSET: bv32 := 2166136261
  const FNV_PRIME: bv32 := 16777619

  /** FNV-1a: a byte is mixed in, and the hash is multiplied in 32 bits. */
  function Mixed(hash: bv32, b: Byte): bv32 {
    (hash ^ (b as bv32)) * FNV_PRIME
  }

  function Fnv1a(hash: bv32, bytes: Bytes): bv32
    decreases |bytes|
  {
    if bytes == [] then hash else Fnv1a(Mixed(hash, bytes[0]), bytes[1..])
  }

  lemma MixedLetters()
    ensures Mixed(FNV_OFFSET, 0x61) == 0xE40C292C && Mixed(0xE40C292C, 0x62) == 0x4D2505CA
  {}

  /** Check values of the hash. */
  lemma HashesOfLetters()
    ensures Fnv1a(FNV_OFFSET, []) == 0x811C9DC5
    ensures Fnv1a(FNV_OFFSET, [0x61]) == 0xE40C292C
    ensures Fnv1a(FNV_OFFSET, [0x61, 0x62]) == 0x4D2505CA
  {
    MixedLetters();
    var ab: Bytes := [0x61, 0x62];
    assert ab[1..] == [0x62];
  }

  function GetStripe(objectType: Byte, key: Bytes): (stripe: nat)
    ensures stripe < NUM_STRIPES
  {
    (Fnv1a(FNV_OFFSET, [objectType] + key) as nat) % NUM_STRIPES
  }

  /** The type of the object is hashed in front of its key. */
  lemma StripeOfLetters()
    ensures GetStripe(0x61, [0x62]) == 0xCA
  {
    HashesOfLetters();
    assert [0x61 as Byte] + [0x62] == [0x61, 0x62];
  }
}
