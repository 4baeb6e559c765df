/** The browser's `localStorage` as a string-to-string map, with the two
    slots the session store keeps in it. */
module Storage {
  import opened Wrappers

  type Store = map<string, string>

  /** Slot holding the raw session token. */
  const TokenKey: string := "session_token"

  /** Slot holding the JSON text of the signed-in user. */
  const UserKey: string := "pharmacy_user"

  /** `getItem`: the stored text, or `null` when the key is absent. */
  function GetItem(st: Store, key: string): Option<string> {
    if key in st then Some(st[key]) else None
  }

  /** `setItem`: overwrite one slot. */
  function SetItem(st: Store, key: string, value: string): Store {
    st[key := value]
  }

  /** `removeItem`: drop one slot; removing an absent key changes nothing. */
  function RemoveItem(st: Store, key: string): Store {
    st - {key}
  }

  /** Two stores agree on every slot other than the session store's own two. */
  ghost predicate SameOtherSlots(a: Store, b: Store) {
    forall k :: k != TokenKey && k != UserKey ==> GetItem(a, k) == GetItem(b, k)
  }
}
