/** Keys, records, signatures and the item sequences that bucket chains hold. */
module Records {

  const WORD: nat := 0x1_0000_0000

  /** The signature that marks an empty slot. */
  const HASH_INVALID_SIGNATURE: nat := 31678523

  /** A hash value computed for some key: any DWORD but the reserved one. */
  type Signature = s: nat | s < WORD && s != HASH_INVALID_SIGNATURE witness 0

  /**
    What a key compares equal by, together with the hash of that class of keys. Keeping
    the signature in the class makes equal keys have equal hashes, whatever the hash.
   */
  datatype KeyClass = KeyClass(id: int, sig: Signature)

  /** A key as its owner spells it; two spellings of one class are equal keys. */
  datatype Key = Key(cls: KeyClass, spelling: int)

  predicate EqualKeys(a: Key, b: Key) {
    a.cls == b.cls
  }

  function CalcKeyHash(k: Key): Signature {
    k.cls.sig
  }

  /** A record: its address and the key extracted from it. */
  datatype Record = Record(address: nat, key: Key)

  function ExtractKey(r: Record): Key {
    r.key
  }

  /** An occupied slot. */
  datatype Item = Item(sig: Signature, rec: Record)

  datatype Option<T> = None | Some(value: T)
}
