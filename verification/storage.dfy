/**
  The browser-side preference store (apps/web/src/storage.ts): six values
  kept under fixed keys of `localStorage`, five of them as JSON text and one
  as the text of a boolean. `localStorage` is a map from keys to texts and
  JSON is an abstract encode/decode pair per record type.
 */
module Storage {
  import opened Wrappers
  import opened Types

  /** What the store keeps, one slot per key. */
  datatype Slot = BodyBases | AvatarBases | FavFolders | AvatarFavs | AvatarTags | ConfirmAvatarChange

  /** The `localStorage` key of each slot. */
  function Key(slot: Slot): string {
    match slot
    case BodyBases => "vam.bodyBases.v1"
    case AvatarBases => "vam.avatarBaseMap.v1"
    case FavFolders => "vam.favFolders.v1"
    case AvatarFavs => "vam.avatarFavMap.v1"
    case AvatarTags => "vam.avatarTagMap.v1"
    case ConfirmAvatarChange => "vam.confirmAvatarChange.v1"
  }

  /** No two slots share a key. */
  lemma KeysDistinct(a: Slot, b: Slot)
    ensures Key(a) == Key(b) <==> a == b
  {
  }

  /** `localStorage`: keys to stored texts. */
  type Store = map<string, string>

  /**
    `JSON.stringify` and `JSON.parse` for one record type; `decode` is
    `None` where `JSON.parse` throws.
   */
  datatype Codec<!T> = Codec(encode: T -> string, decode: string -> Option<T>)

  /** What the store relies on: decoding gives back what was encoded, and no encoding is the empty text. */
  ghost predicate Faithful<T(!new)>(json: Codec<T>) {
    forall x: T :: json.encode(x) != "" && json.decode(json.encode(x)) == Some(x)
  }

  /**
    A loader: `raw ? JSON.parse(raw) : fallback` inside a `try` whose
    `catch` also returns the fallback. An absent key reads as `null` and an
    empty text is falsy, so both give the fallback.
   */
  function Load<T>(st: Store, slot: Slot, json: Codec<T>, fallback: T): (r: T)
    ensures Key(slot) !in st || st[Key(slot)] == "" ==> r == fallback
    ensures Key(slot) in st && st[Key(slot)] != "" && json.decode(st[Key(slot)]).None? ==> r == fallback
    ensures Key(slot) in st && st[Key(slot)] != "" && json.decode(st[Key(slot)]).Some? ==>
      r == json.decode(st[Key(slot)]).value
    ensures r != fallback ==> Key(slot) in st && json.decode(st[Key(slot)]) == Some(r)
  {
    if Key(slot) in st && st[Key(slot)] != "" then json.decode(st[Key(slot)]).GetOr(fallback) else fallback
  }

  /** A saver: `localStorage.setItem(key, JSON.stringify(value))`. */
  function Save<T>(st: Store, slot: Slot, json: Codec<T>, value: T): (r: Store)
    ensures r.Keys == st.Keys + {Key(slot)}
    ensures r[Key(slot)] == json.encode(value)
    ensures forall k :: k in st && k != Key(slot) ==> r[k] == st[k]
  {
    st[Key(slot) := json.encode(value)]
  }

  function LoadBodyBases(st: Store, json: Codec<seq<BodyBase>>): seq<BodyBase> {
    Load(st, BodyBases, json, [])
  }

  function SaveBodyBases(st: Store, json: Codec<seq<BodyBase>>, list: seq<BodyBase>): Store {
    Save(st, BodyBases, json, list)
  }

  function LoadAvatarBaseMap(st: Store, json: Codec<AvatarBaseMap>): AvatarBaseMap {
    Load(st, AvatarBases, json, map[])
  }

  function SaveAvatarBaseMap(st: Store, json: Codec<AvatarBaseMap>, m: AvatarBaseMap): Store {
    Save(st, AvatarBases, json, m)
  }

  function LoadFavFolders(st: Store, json: Codec<seq<FavFolder>>): seq<FavFolder> {
    Load(st, FavFolders, json, [])
  }

  function SaveFavFolders(st: Store, json: Codec<seq<FavFolder>>, list: seq<FavFolder>): Store {
    Save(st, FavFolders, json, list)
  }

  function LoadAvatarFavMap(st: Store, json: Codec<AvatarFavMap>): AvatarFavMap {
    Load(st, AvatarFavs, json, map[])
  }

  function SaveAvatarFavMap(st: Store, json: Codec<AvatarFavMap>, m: AvatarFavMap): Store {
    Save(st, AvatarFavs, json, m)
  }

  function LoadAvatarTags(st: Store, json: Codec<AvatarTagMap>): AvatarTagMap {
    Load(st, AvatarTags, json, map[])
  }

  function SaveAvatarTags(st: Store, json: Codec<AvatarTagMap>, m: AvatarTagMap): Store {
    Save(st, AvatarTags, json, m)
  }

  /** `raw === "true"`: only that exact text reads as true; absent or anything else is false. */
  function LoadConfirmAvatarChange(st: Store): (r: bool)
    ensures Key(ConfirmAvatarChange) !in st ==> !r
    ensures Key(ConfirmAvatarChange) in st ==> (r <==> st[Key(ConfirmAvatarChange)] == "true")
  {
    Key(ConfirmAvatarChange) in st && st[Key(ConfirmAvatarChange)] == "true"
  }

  /** `String(enabled)`. */
  function SaveConfirmAvatarChange(st: Store, enabled: bool): (r: Store)
    ensures r.Keys == st.Keys + {Key(ConfirmAvatarChange)}
    ensures r[Key(ConfirmAvatarChange)] == (if enabled then "true" else "false")
    ensures forall k :: k in st && k != Key(ConfirmAvatarChange) ==> r[k] == st[k]
  {
    st[Key(ConfirmAvatarChange) := if enabled then "true" else "false"]
  }

  /** Saving a value and loading it back gives the value, for a faithful codec. */
  lemma SaveThenLoad<T(!new)>(st: Store, slot: Slot, json: Codec<T>, value: T, fallback: T)
    requires Faithful(json)
    ensures Load(Save(st, slot, json, value), slot, json, fallback) == value
  {
    assert json.encode(value) != "" && json.decode(json.encode(value)) == Some(value);
  }

  /** Saving one slot leaves every other slot's loader result as it was. */
  lemma SaveKeepsOtherSlots<T, U>(st: Store, slot: Slot, json: Codec<T>, value: T,
                                  other: Slot, otherJson: Codec<U>, fallback: U)
    requires other != slot
    ensures Load(Save(st, slot, json, value), other, otherJson, fallback) == Load(st, other, otherJson, fallback)
    ensures other == ConfirmAvatarChange ==> LoadConfirmAvatarChange(Save(st, slot, json, value)) == LoadConfirmAvatarChange(st)
  {
    KeysDistinct(slot, other);
  }

  /** Saving the flag leaves every JSON slot's loader result as it was. */
  lemma SaveFlagKeepsOtherSlots<T>(st: Store, enabled: bool, other: Slot, json: Codec<T>, fallback: T)
    requires other != ConfirmAvatarChange
    ensures Load(SaveConfirmAvatarChange(st, enabled), other, json, fallback) == Load(st, other, json, fallback)
  {
    KeysDistinct(ConfirmAvatarChange, other);
  }

  /** The flag reads back as it was saved. */
  lemma FlagRoundTrip(st: Store, enabled: bool)
    ensures LoadConfirmAvatarChange(SaveConfirmAvatarChange(st, enabled)) == enabled
  {
  }
}
