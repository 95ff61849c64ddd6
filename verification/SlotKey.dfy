// The bit layout of slot map keys: tag, version and index packed into one word.

module SlotKey {

  // ----- slot_map_key64: 12-bit tag, 20-bit version, 32-bit index -----

  const INDEX_MASK: bv64 := 0x00000000ffffffff
  const VERSION_MASK: bv64 := 0x000fffff00000000
  const TAG_MASK: bv64 := 0xfff0000000000000
  const MAX_VERSION: bv64 := 0x0fffff
  const MAX_TAG: bv64 := 0x0fff

  function Make(version: bv64, index: bv64): bv64
    requires version != 0
  {
    ((version << 32) & VERSION_MASK) | (index & INDEX_MASK)
  }

  function ClearTagAndUpdateVersion(key: bv64, version: bv64): bv64
    requires version != 0
  {
    ((key & !VERSION_MASK) | ((version << 32) & VERSION_MASK)) & !TAG_MASK
  }

  function ToIndex(key: bv64): bv64 { key & INDEX_MASK }

  function ToVersion(key: bv64): bv64 { (key & VERSION_MASK) >> 32 }

  function GetTag(key: bv64): bv64 { (key & TAG_MASK) >> 52 }

  function SetTag(key: bv64, tag: bv64): bv64
    requires tag <= MAX_TAG
  {
    (key & !TAG_MASK) | ((tag << 52) & TAG_MASK)
  }

  /** A version and an index in range survive packing, untagged; a version out of range does not. */
  lemma MakeRoundTrip(version: bv64, index: bv64)
    requires version != 0 && version <= 0xffffffff && index <= INDEX_MASK
    ensures ToIndex(Make(version, index)) == index && GetTag(Make(version, index)) == 0
    ensures ToVersion(Make(version, index)) == version <==> version <= MAX_VERSION
  {
  }

  lemma TagBits(key: bv64)
    ensures GetTag(key) <= 0xfff && GetTag(key) << 52 == key & 0xfff0_0000_0000_0000
  {
  }

  lemma VersionBits(key: bv64)
    ensures ToVersion(key) <= 0xf_ffff && ToVersion(key) << 32 == key & 0x000f_ffff_0000_0000
  {
  }

  lemma IndexBits(key: bv64)
    ensures ToIndex(key) <= 0xffff_ffff && ToIndex(key) == key & 0xffff_ffff
  {
  }

  lemma MaskParts(key: bv64)
    ensures key == (key & 0xfff0_0000_0000_0000) | (key & 0x000f_ffff_0000_0000) | (key & 0xffff_ffff)
  {
  }

  /** The tag is the top twelve bits of the word, the version the next twenty and the index the low thirty-two. */
  lemma FieldsFillTheWord(key: bv64)
    ensures GetTag(key) <= 0xfff && ToVersion(key) <= 0xf_ffff && ToIndex(key) <= 0xffff_ffff
    ensures key == (GetTag(key) << 52) | (ToVersion(key) << 32) | ToIndex(key)
  {
    TagBits(key);
    VersionBits(key);
    IndexBits(key);
    MaskParts(key);
    hide *;
  }

  /** The three fields determine the word, so equal fields mean equal keys. */
  lemma FieldsDetermineKey(a: bv64, b: bv64)
    ensures a == b <==> ToIndex(a) == ToIndex(b) && ToVersion(a) == ToVersion(b) && GetTag(a) == GetTag(b)
  {
    assert a == (a & INDEX_MASK) | (a & VERSION_MASK) | (a & TAG_MASK);
    assert b == (b & INDEX_MASK) | (b & VERSION_MASK) | (b & TAG_MASK);
  }

  /** The recycled key is the untagged key of the next version at the same index, whatever tag came in. */
  lemma RecycledKeyIsFresh(key: bv64, version: bv64)
    requires version != 0 && version <= MAX_VERSION
    ensures ClearTagAndUpdateVersion(key, version) == Make(version, ToIndex(key))
  {
  }

  lemma SetTagKeepsIdentity(key: bv64, tag: bv64)
    requires tag <= MAX_TAG
    ensures ToIndex(SetTag(key, tag)) == ToIndex(key) && ToVersion(SetTag(key, tag)) == ToVersion(key)
    ensures GetTag(SetTag(key, tag)) == tag
  {
  }

  // ----- slot_map_key32: 2-bit tag, 10-bit version, 20-bit index -----

  const INDEX_MASK32: bv32 := 0x000fffff
  const VERSION_MASK32: bv32 := 0x3ff00000
  const MAX_VERSION32: bv32 := 0x0400

  function Make32(version: bv32, index: bv32): bv32
    requires version != 0
  {
    ((version << 20) & VERSION_MASK32) | (index & INDEX_MASK32)
  }

  function ToVersion32(key: bv32): bv32 { (key & VERSION_MASK32) >> 20 }

  /** The version stands right above a twenty-bit index and is cut to ten bits; the two tag bits on top are clear. */
  lemma Make32Packs(version: bv32, index: bv32)
    requires version != 0
    ensures Make32(version, index) == ((version & 0x3ff) << 20) | (index & 0xf_ffff)
    ensures ToVersion32(Make32(version, index)) == version & 0x3ff
  {
  }

  /** The 32-bit key loses its own maximum version: every version a slot can have survives packing but that one. */
  lemma LastVersion32IsLost(version: bv32, index: bv32)
    requires 0 < version <= MAX_VERSION32 && index <= INDEX_MASK32
    ensures ToVersion32(Make32(version, index)) == version <==> version != MAX_VERSION32
    ensures version == MAX_VERSION32 ==> ToVersion32(Make32(version, index)) == 0
  {
  }
}
