/** The key store as the frame layer sees it: a map from (address, direction) slots to keys and the
    seed of their counter. */
module KeyStore {
  import opened Bytes

  datatype Option<T> = None | Some(value: T)

  const MAX_ADDR: nat := 247
  const DIRS: nat := 3
  const SLOTS: nat := 744

  /** An unsigned 32-bit number. */
  type Word = n: nat | n < 0x1_0000_0000

  datatype Keys = Keys(encKey: seq<bv8>, macKey: seq<bv8>)
  datatype KeyEntry = KeyEntry(keys: Keys, initialCtr: Word)

  /** The provisioned entries, by slot. */
  type Store = map<nat, KeyEntry>

  /** The place of (addr, dir) in the tables; addresses above 247 and unknown directions have none. */
  function SlotOf(addr: bv8, dir: nat): (r: Option<nat>)
    ensures r.Some? <==> addr as nat <= MAX_ADDR && dir < DIRS
    ensures r.Some? ==> r.value < SLOTS && r.value == 3 * (addr as nat) + dir
  {
    if addr as nat > MAX_ADDR || dir >= DIRS then None else Some(DIRS * (addr as nat) + dir)
  }

  /** No two pairs share a place. */
  lemma SlotsApart(addr: bv8, dir: nat, addr': bv8, dir': nat)
    requires SlotOf(addr, dir).Some? && SlotOf(addr, dir) == SlotOf(addr', dir')
    ensures addr == addr' && dir == dir'
  {
    OctetInjective(addr, addr');
  }

  function Lookup(store: Store, addr: bv8, dir: nat): Option<Keys> {
    var slot := SlotOf(addr, dir);
    if slot.Some? && slot.value in store then Some(store[slot.value].keys) else None
  }

  /** The seed of a slot's counter: zero where no key is registered. */
  function Seed(store: Store, slot: nat): Word {
    if slot in store then store[slot].initialCtr else 0
  }
}
